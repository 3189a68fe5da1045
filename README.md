# EcoAlerta — a Dafny model of the report and account handlers

EcoAlerta is an Express application where citizens file environmental
reports ("denúncias") with photo or video attachments and administrators
moderate them. This project models the request handlers that make up its
core and proves properties of them:

- the pure helpers: CPF normalisation, the file-name guard used before a
  delete, the 18-year age rule, the reverse-geocoding stub, and the subject
  and body of the status-change e-mail (`Helpers`);
- the guards: the sign-in and admin checks on the session
  (`AuthMiddleware`) and the terms-of-use gate (`TermsMiddleware`);
- the report handlers: the public feed, the details view, submitting and
  cancelling a report (`DenunciaController`);
- the moderation handlers and the admin panel's ordering
  (`AdminController`);
- the account handlers: register, login, profile update, password change,
  terms acceptance, and the password-reset token (`AuthController`).

The MySQL tables become the fields of one `Store.Database` object: a map
of users and a map of reports keyed by their auto-increment ids, the next
id of each table, and the set of file names in the uploads directory. Each
state-changing handler is a method that takes that object and runs as one
atomic step; the read-only handlers are functions of its tables. The
object's `Valid()` invariant holds that ids are positive and below the next
id, that no two users share a CPF, an e-mail or a reset token, and that a
reset token and its expiry are set and cleared together. Every handler
preserves it.

The SQL that the listings rely on is modelled in `Query`. `WHERE` becomes
`Filter`, and `ORDER BY` becomes an insertion sort, `SortBy`, under a
total preorder. It is proved to return a sorted permutation of its input.

The session is a value (`Records.Session`). A `userId` of 0 stands for
JavaScript's falsy "no user". `isAdmin` keeps its JavaScript type
(`Undefined`, `Number` or `Boolean`), so the strict `=== 1` comparison is
explicit. An empty string stands for an empty or falsy form field.

The outside world is passed in as parameters:

- bcrypt is a `Hasher` holding a `hash` function and a `verify` function. `Sound(h)` says that a password verifies against its own hash.
- `crypto.randomBytes` is a `token` parameter that no user already holds.
- The clock is `now` in milliseconds, or `today` as a calendar date for the age rule.
- Whether the SMTP transport delivered is a boolean, `delivered`.
- Every e-mail is returned as a `Mail` value and is not sent.
- JavaScript's `.length` counts UTF-16 code units, so the length checks on names, e-mails and passwords use `Records.JsLength`, which counts a character outside the Basic Multilingual Plane twice.

Where the code does something other than its own comments, messages and
pages suggest, the model follows the code:

- Registration sets the terms-acceptance time (`NOW()`,
  controllers/authController.js:34), so a new user is never held at the
  terms page (controllers/authController.js:250) or needs its acceptance
  (controllers/authController.js:264). `AuthController.Register` proves this.
- Moderation stores `rejectionReason || null` for approvals as well as
  rejections, where the comment at controllers/adminController.js:40
  speaks of a rejection reason only.
- Resolving and cancelling do not look at the current status. The comment
  at controllers/adminController.js:69 speaks of an already approved
  report, yet a rejected report can be resolved, and it then appears on
  the public feed (`AdminController.ResolvingRejectedPublishes`).
- The password-reset request does not answer every e-mail the same way.
  The message at controllers/authController.js:284 ("if the e-mail
  exists") is written for a uniform answer, but a known and an unknown
  e-mail get different messages (`AuthController.ForgotAnswersDiffer`).
- A reset with a too-short password answers with an HTML page and status
  200 (controllers/authController.js:347-348), where the password change
  answers 400 for the same fault (controllers/authController.js:221-222).
- A cancelled report can leave its upload on disk. The stored name keeps
  the extension of the client's file name, which may contain `;`, and
  cancelling splits the stored column on `;`: an upload stored as
  `imagem-1-2.jp;g` makes cancel unlink `imagem-1-2.jp` and `g` and keep
  the upload (`DenunciaController.StoredNameWithSeparator`).

## Model

| member | source | states |
|---|---|---|
| Helpers.Digits | utils/helpers.js:8 | the result has only digit characters and is no longer than the input |
| Helpers.CleanCpf | utils/helpers.js:7-9 | the cleaned CPF has only digits; a missing value cleans to the empty string |
| Helpers.DigitsAppend | utils/helpers.js:8 | cleaning distributes over concatenation, so the digits stay in their order |
| Helpers.DigitsOfChar | utils/helpers.js:8 | one character is kept exactly when it is a digit |
| Helpers.DigitsKeepsDigits | utils/helpers.js:8 | every digit of the input survives cleaning as often as it occurs |
| Helpers.DigitsOfDigits | utils/helpers.js:8 | a string of digits is left unchanged |
| Helpers.CleanCpfIdempotent | utils/helpers.js:7-9 | cleaning an already-cleaned CPF changes nothing |
| Helpers.ValidateCpfLength | utils/helpers.js:11-14 | returns the cleaned CPF exactly when it has 11 digits, and nothing otherwise |
| Helpers.ValidateCleaned | controllers/authController.js:14-15 | validating `cleanCpf(cpf)`, as the handlers do, gives the same as validating `cpf` |
| Helpers.TrimTrailingSlashes | utils/helpers.js:18 | the result is the input with exactly its trailing slashes removed: a prefix, followed in the input only by slashes, and not ending in one |
| Helpers.AfterLastSlash | utils/helpers.js:18 | the result is the suffix after the last slash: it holds no slash and is either the whole input or preceded by a slash |
| Helpers.SafeFileName | utils/helpers.js:17-19 | the POSIX basename contains no `/`; a name without `/` is kept as it is |
| Helpers.SafeFileNameIsBasename | utils/helpers.js:16-19 | the basename is the last segment of the name once its trailing slashes are dropped, as `path.basename` returns |
| Helpers.SafeFileNameExamples | utils/helpers.js:17-19 | `d/f` gives `f`, `a/b/` gives `b`, `/` gives the empty name, and `..` is kept |
| Helpers.SafeFileNameIsComponent | utils/helpers.js:16-19 | the basename is a contiguous piece of the given name |
| Helpers.SafeFileNameIdempotent | utils/helpers.js:17-19 | taking the basename twice changes nothing |
| Helpers.IsAdult | utils/helpers.js:22-28 | more than 18 calendar years between the years means adult, fewer means minor, and exactly 18 means adult exactly when the birthday (month, day) has come |
| Helpers.AdultMonotoneInBirth | utils/helpers.js:22-28 | anyone born on or before an adult's birth date is an adult |
| Helpers.AdultMonotoneInToday | utils/helpers.js:22-28 | an adult is still an adult on any later day |
| Helpers.AdultBoundaryExample | utils/helpers.js:26-27 | born 2010-01-01: a minor on 2024-06-01 and on 2027-12-31, an adult on 2028-01-01 |
| Helpers.ReverseGeocode | utils/helpers.js:32-38 | both branches of the stub return the location unchanged |
| Helpers.NotificationSubject | utils/helpers.js:43 | the subject is the fixed prefix followed by the status |
| Helpers.ShownReason | utils/helpers.js:59 | the reason shown is never empty: the given reason, or exactly the default `Violação dos Termos de Uso.` when it is empty |
| Helpers.NotificationBody | utils/helpers.js:47-72 | every body ends with the signature block |
| Helpers.RejectionShowsReason | utils/helpers.js:55-60 | a rejection e-mail contains the given reason, or the default reason when none is given |
| Helpers.UnknownStatusGeneric | utils/helpers.js:68-72 | any status other than the three known ones gets the generic body, which names the status |
| Helpers.Notification | utils/helpers.js:42-80 | the mail goes to the recipient with the prefixed subject, its body ends with the signature, and a rejection's body shows the reason |
| Records.JsLength | controllers/authController.js:221 | the JavaScript length of a string counts UTF-16 code units: between its number of characters and twice that, and equal to it when no character lies outside the Basic Multilingual Plane |
| Records.JsLengthAppend | controllers/authController.js:221 | the JavaScript length of a concatenation is the sum of the lengths, so with JsLengthOfChar it is the count of UTF-16 code units |
| Records.JsLengthOfChar | controllers/authController.js:221 | a character outside the Basic Multilingual Plane is two code units, and any other character is one |
| Records.MixedLength | controllers/authController.js:221 | an emoji followed by a letter is three code units |
| Records.EmojiLength | controllers/authController.js:221 | three emoji are three characters but a JavaScript length of 6 |
| Query.Filter | controllers/denunciaController.js:13 | `WHERE` keeps exactly the rows that satisfy the condition, each as often as it occurs |
| Query.SortBy | controllers/adminController.js:12 | `ORDER BY` returns a permutation of its rows |
| Query.SortBySorted | controllers/adminController.js:12 | under a total preorder the sorted rows are in order |
| Query.SortByMembers | controllers/denunciaController.js:13 | sorting keeps exactly the rows it was given |
| Store.RowsBelow | controllers/adminController.js:11-13 | a scan of the keys below a bound returns each row as many times as keys below the bound hold it, and nothing else |
| Store.Database.Rows | controllers/adminController.js:11-13 | the scan of the reports table: its rows, each once per key below the next id that holds it |
| Store.Database.ScanIsWholeTable | controllers/adminController.js:11-13 | in a valid store the scan holds each row once per key of the whole table |
| AuthMiddleware.IsAuthenticated | middleware/auth.js:1-7 | passes exactly when `userId` is truthy; otherwise redirects to `/login.html` |
| AuthMiddleware.IsAdmin | middleware/auth.js:9-23 | passes exactly when `userId` is truthy and `isAdmin === 1`; otherwise 403 |
| AuthMiddleware.AdminIsAuthenticated | middleware/auth.js:1-10 | whoever passes the admin guard passes the sign-in guard |
| AuthMiddleware.AdminFlagIsStrict | middleware/auth.js:10 | a flag that is not the number 1, such as `true`, is refused |
| TermsMiddleware.LookupTerms | middleware/terms.js:12-15 | the lookup finds the user's acceptance time, or reports that the row is missing |
| TermsMiddleware.CheckTermsAcceptance | middleware/terms.js:4-36 | a request without a user passes; a redirect happens exactly for a user row with no acceptance time on a URL not starting with `/terms` |
| TermsMiddleware.NoRedirectLoop | middleware/terms.js:22 | a `/terms` URL is never redirected |
| TermsMiddleware.FailsOpen | middleware/terms.js:17-33 | a lookup error, a missing row and an accepted user all pass |
| TermsMiddleware.GateOnTable | middleware/terms.js:12-25 | against the table, a user is held exactly when their row exists with no acceptance time |
| DenunciaController.Join | controllers/denunciaController.js:49 | one name joins to itself |
| DenunciaController.Split | controllers/denunciaController.js:101 | splitting gives at least one piece and no piece holds the separator |
| DenunciaController.SplitFirst | controllers/denunciaController.js:101 | a name without the separator splits into itself, and comes off first when followed by one |
| DenunciaController.SplitJoin | controllers/denunciaController.js:101 | splitting joined names without the separator gives the names back |
| DenunciaController.FilesToUnlink | controllers/denunciaController.js:100-105 | the files unlinked are the basenames of the `;` pieces, none for an empty column, and none contains `/` |
| DenunciaController.UnlinkWhatWasStored | controllers/denunciaController.js:97-106 | for upload names without `/` or `;`, cancel unlinks exactly the files submit stored |
| DenunciaController.StoredNameWithSeparator | controllers/denunciaController.js:100-105 | a stored name `a;b` is unlinked as the two files `a` and `b`, and the stored file itself is not unlinked |
| DenunciaController.UnlinkFiles | controllers/denunciaController.js:102-105 | each name is reduced to its basename, in order, and exactly those files leave the uploads directory |
| DenunciaController.FeedRows | controllers/denunciaController.js:12-14 | the feed holds exactly the approved and resolved reports, each as often as in the table, newest first |
| DenunciaController.Feed | controllers/denunciaController.js:12-20 | each feed entry is the feed row with the owner's name from the join |
| DenunciaController.FeedOfStore | controllers/denunciaController.js:12-14 | against the store, the feed holds every approved or resolved report, once per key that holds it, and nothing else |
| DenunciaController.FeedHidesUnmoderated | controllers/denunciaController.js:13 | no pending or rejected report reaches the feed |
| DenunciaController.Details | controllers/denunciaController.js:121-137 | an `isAdmin === 1` session sees any existing report; any other session sees only its own; otherwise 404 |
| DenunciaController.SubmitDenuncia | controllers/denunciaController.js:45-63 | no files is refused with 400 and nothing changed; otherwise exactly one pending report is added with the session's owner id, the `;`-joined names and `Anônimo` exactly when `anonimo === 'true'`, and the answer is the redirect |
| DenunciaController.CancelDenuncia | controllers/denunciaController.js:79-108 | only the owner cancels, whatever the status; the row is deleted and the basenames of its attachments leave the uploads directory, and the answer is the redirect; otherwise 404 and nothing changes |
| AdminController.Rank | controllers/adminController.js:12 | the panel ranks run from 1 to 4, and rank 1 is exactly the pending status |
| AdminController.AdminPanel | controllers/adminController.js:11-13 | the panel is a permutation of all reports, ordered by status rank and then newest first |
| AdminController.PanelOfStore | controllers/adminController.js:11-13 | against the store, the panel holds every report once per key that holds it, and nothing else |
| AdminController.PendingFirst | controllers/adminController.js:12 | every pending report comes before every other report on the panel |
| AdminController.StatusNotice | controllers/adminController.js:46-57 | an e-mail is produced exactly when the report joins to an owner row, addressed to that owner with the subject and body built from the status |
| AdminController.StoredReason | controllers/adminController.js:43 | an empty reason is stored as null, any other as given |
| AdminController.UpdateDenunciaStatus | controllers/adminController.js:29-67 | a status other than `APROVADA`/`REJEITADA` is refused with 400 and nothing changed; otherwise the report gets the status and reason, whatever it was before, and no other report changes; an unknown id changes nothing, sends no e-mail and still answers 200 |
| AdminController.ResolveDenuncia | controllers/adminController.js:70-102 | the report becomes resolved whatever its status and keeps its reason; no other report changes |
| AdminController.ResolvingRejectedPublishes | controllers/adminController.js:78-81 | a rejected report is off the feed, and once resolved it is on it |
| AuthController.Register | controllers/authController.js:10-46 | a CPF not of 11 digits gives 400 and a CPF or e-mail on file gives 409, in both cases with no change; otherwise one non-admin user is added with the cleaned CPF and terms accepted, who then passes the terms gate |
| AuthController.Login | controllers/authController.js:49-95 | a bad CPF gives 400, an unknown CPF 401 on `cpf`, a wrong password 401 on `password`; success fills the session from the user's row; a failure leaves the session as it was |
| AuthController.RegisterThenLogin | controllers/authController.js:32-84 | with a sound hasher, a user who registered can sign in with the same CPF and password, and is not an admin |
| AuthController.RegisterTwice | controllers/authController.js:14-30 | two spellings of the same CPF cannot both register |
| AuthController.RenameReports | controllers/authController.js:196-199 | a new name reaches exactly the user's non-anonymous reports, and no report changes owner |
| AuthController.ProfileCheck | controllers/authController.js:150-187 | a name or e-mail longer than 100 UTF-16 units, an underage birth date and an e-mail owned by another user are refused in that order, and exactly these answer 400; no field given means no change |
| AuthController.UpdateProfile | controllers/authController.js:141-213 | a refused update changes nothing; otherwise the given fields replace the user's, the session follows the new name and e-mail, and the name reaches the user's non-anonymous reports |
| AuthController.ApplyFields | controllers/authController.js:189-191 | the `UPDATE` touches only the birth date, e-mail and name columns, and each of them only when a field for it was pushed |
| AuthController.FieldsEdit | controllers/authController.js:158-191 | the `UPDATE` built from the pushed fields changes exactly the given fields of the user row |
| AuthController.EditKeepsTables | controllers/authController.js:171-178 | an edit whose e-mail no other user owns keeps CPFs, e-mails and tokens unique |
| AuthController.ChangePassword | controllers/authController.js:216-246 | a missing password or a new one under 6 UTF-16 units gives 400, a missing user row 500, a wrong current password 401, all with no change; otherwise only that user's hash is replaced |
| AuthController.AcceptTerms | controllers/authController.js:256-272 | without a user, redirect to sign-in with nothing changed; otherwise the acceptance time is set and the terms gate then lets the user through |
| AuthController.ResetMail | controllers/authController.js:298-305 | the reset e-mail goes to the given address and carries the link with the token |
| AuthController.ForgotPassword | controllers/authController.js:275-315 | an unknown e-mail changes nothing; a known one gets the fresh token with expiry one hour from now and the link e-mail; a failed send answers 500 with the token written, and otherwise the answer is 200 with a message that differs between known and unknown e-mails |
| AuthController.ForgotAnswersDiffer | controllers/authController.js:283-307 | known and unknown e-mails both answer 200 but with different messages |
| AuthController.IssuedTokenWindow | controllers/authController.js:289-296 | a token issued at a time is live exactly until one hour later |
| AuthController.RenderResetPassword | controllers/authController.js:323-332 | the reset form is shown exactly when some user holds the token and it has not expired |
| AuthController.Redeemed | controllers/authController.js:364-367 | a redeemed user row has the new hash and neither token nor expiry |
| AuthController.RedeemedTokenIsSpent | controllers/authController.js:364-367 | once redeemed, the token is live for nobody at any time |
| AuthController.ExpiredStaysExpired | controllers/authController.js:353-356 | a token that is not live at some time is not live at any later time |
| AuthController.ResetPassword | controllers/authController.js:342-377 | a password under 6 UTF-16 units is refused, an unknown or expired token gives 400, both with no change; otherwise the holder's hash is replaced and the token and expiry are cleared, so the token never works again |
| AuthController.ForgotThenReset | controllers/authController.js:275-377 | an issued token redeems exactly within the hour, and a later second redemption fails |

## Left out

- Store failures: every `catch` that answers 500 after a failed query is left out, and so is the connection pool. Two 500 answers are modelled: a password change whose user row is gone, and a reset e-mail that could not be sent.
- Concurrency: each handler is one atomic step, and interleaved requests are not modelled.
- Uploads: the upload middleware (storage, the file-type filter, the 50 MB limit, the random file names) is not part of this model. `SubmitDenuncia` receives the stored file names as input. The cleanup of uploads after a failed insert belongs to the store-failure path and is left out.
- `fs.unlink`: its errors are ignored by the source. The model removes the name from the uploads set, and removing a name that is not there changes nothing.
- E-mail: sending is I/O. The messages are returned as values. The status e-mail is not awaited by the moderation handlers, so its outcome never reaches their answer.
- Rendering: HTML pages are represented by outcome values and status codes.
- `logout`: it destroys the session and redirects to `/login.html`; the session store is not modelled.
- `getProfile`, `getTermsPage`, `getDenunciaForm` and `getAllUsers`: these render pages or dump query results and change nothing.
- Routes, server setup, the front-end scripts and the database and mailer configuration are not part of this model.
- bcrypt and `crypto.randomBytes`: their internals (salting, cost, randomness) are left out. They are the abstract `Hasher` and a fresh `token` parameter.
- `Helpers.IsAdult`: dates are (year, month, day) triples compared lexicographically. JavaScript's date-string parsing, time zones, the rollover of `new Date(y-18, m, d)` on 29 February, and invalid date strings are not modelled.
- `AuthController.Register`: the e-mail and CPF comparisons are exact. MySQL's case-insensitive collation is not modelled, here or in the e-mail checks of `AuthController.UpdateProfile` and `AuthController.ForgotPassword` or the token lookups of `AuthController.ResetPassword` and `AuthController.RenderResetPassword`.
- `AuthController.Register`, `AuthController.Login`, `DenunciaController.SubmitDenuncia` and `AuthController.ForgotPassword`: every form field is present. A field missing from the body is `undefined`, and then bcrypt (`hash` in `register`, `compare` in `login`) or the MySQL driver (the queries of `register`, `submitDenuncia` and `forgotPassword`) throws and the handler answers 500. That path is not modelled.
- `Helpers.SafeFileName`: the basename is the POSIX one, split on `/` only. On Windows `path.basename` also splits on `\`, which is not modelled.
- `DenunciaController.SubmitDenuncia`: the `INSERT` sets neither the submission time nor the rejection reason; the model takes the table's defaults for them, the current time and `NULL`.
- Request fields that are present are strings. A JSON body can carry a number or another non-string value; `cpf.replace` then throws, which leaves `register` without an answer (the call precedes its `try`) and makes `login` answer 500. Those paths are not modelled.
- `AuthController.ForgotPassword`: the model has one clock. The source computes the expiry on the Node.js clock and compares it with MySQL's `NOW()` in `renderResetPassword` and `resetPassword`; a skew between the two clocks is not modelled.
- `AuthController.UpdateProfile` and `AuthController.Register`: a date of birth is given as a date or not at all. The source passes the raw string on to the `UPDATE` and the `INSERT`, and that string is not modelled.
- `AuthController.ForgotPassword`: the expiry is `OneHour` after `now`. The source adds one to the local hour with `setHours`, which is not exactly one hour across a daylight-saving change; that is not modelled.
- Ids from the request body or URL are integers. JavaScript's coercion of id strings in the SQL parameters is not modelled.
- `AuthController.Login`: a password that matches makes the session hold the user's id, name, e-mail and `is_admin`. Saving the session store is not modelled.
