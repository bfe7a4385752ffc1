# LightSave authentication, modelled in Dafny

LightSave is a personal-finance web application. This project models its
authentication logic in three places:

- **The server's auth controller.** `register` validates the request in a
  fixed order. It then checks that the e-mail is not already taken, hashes the
  password, creates the user record with role `USER`, signs a one-day token and
  answers 201. `login` looks the user up, compares the password and answers 200
  with a token. Every failure path has its own status and JSON body, and so
  does the `catch` path that answers 500.
- **The registration form.** `handleRegister` checks for empty fields, then the
  e-mail pattern, then the password length, then that the confirmation
  matches. It stops at the first check that fails. On success it clears the
  error and all four fields.
- **The login form.** `handleLogin` runs the same checks as the registration
  form, without the confirmation step.

Modules, one per file:

- `Wrappers` (`wrappers.dfy`): `Option`, which stands for `null`/`undefined`
  versus a value.
- `EmailPattern` (`email_pattern.dfy`): the client pattern
  `^[^\s@]+@[^\s@]+\.[^\s@]+$`, written two ways.
  - `MatchesEmailRegex` follows the pattern piece by piece.
  - `HasEmailShape` says in plain words what the pattern accepts: no
    whitespace, exactly one `@`, a non-empty local part, and a `.` in the
    domain that is neither the domain's first nor its last character.
  - `EmailRegexShape` proves that the two agree on every string.
- `FormMessages` (`form_messages.dfy`): the error texts the two forms share.
- `RegisterPage` and `LoginPage`: each form is a class whose fields are the
  component's state, with one handler method. Each handler is specified by a
  pure function that gives the error it leaves.
- `UserStore` (`user_store.dfy`): the `user` table as a class holding a
  `map` keyed by e-mail, with `FindUnique` and `Create`.
- `AuthController` (`auth_controller.dfy`): the controller.
  - `Register` is a method that changes the table. It is proved equal to the
    function `RegisterOutcome`.
  - `Login` is a function of a table snapshot, because `login` only reads.

The controller's library calls are parameters:

- `Services` holds `validator.isEmail`, `bcrypt.hash`, `bcrypt.compare` and the
  signing secret.
- `salt` is the random salt that `bcrypt.hash` draws.
- `now` is the clock time, in seconds, that `jwt.sign` reads for the token's
  `iat` and `exp` claims.
- `RegisterFaults` and `LoginFaults` say, for each call that can throw, whether
  it threw, and with what message.

Behaviour of the code worth knowing:

- An unknown e-mail at login gets the message `"Invalid credentials love"`. A
  wrong password gets `"Invalid credentials"`. Only the 401 status is shared,
  so the answer reveals whether an e-mail is registered
  (`CredentialFailuresDiffer`).
- A missing register field gets `"Please provide firstname, lastname, email,
  and password"`.
- The server never checks a password confirmation. Server login checks neither
  the e-mail format nor the password length.
- The two success bodies differ in shape. Register answers
  `{message, user: {id, firstname, lastname, email, role, token}}`, with the
  token inside `user`. Login answers `{message, token, user: {id, firstname,
  lastname, email, role}}`, with the token beside `user`.
- Register can fail partway. `jwt.sign` runs after `prisma.user.create`, so if
  signing throws, the client gets a 500 but the account stays stored. Repeating
  the same registration then answers 409 (`SignFailureKeepsAccount`).
- Fields count as missing by JavaScript truthiness. A field is missing when it
  is absent or empty. So a whitespace-only name passes the presence check, on
  the server (`WhitespaceNamesPassPresenceCheck`) and in the registration form
  (`WhitespaceFullNameAccepted`). A whitespace-only e-mail also passes the
  presence check, but the e-mail checks that follow reject it.

## Model

| member | source | states |
|---|---|---|
| `AuthController.RegisterOutcome` | server/controllers/auth.controller.js:6-78 | Status is 201, 400, 409 or 500. Each 400 message holds exactly when its check is the first to fail: missing field, then `isEmail`, then length < 6. 409 "Email already in use" holds exactly when the input is valid, the lookup succeeded and the e-mail is stored. 400 and 409 leave the table and the id counter unchanged. 500 holds exactly when the input is valid and lookup threw, or the e-mail is new and hash, create or sign threw. A 500 carries "Server error" and the message of the first call that threw, in program order. 201 holds exactly when the input is valid, the e-mail is new and no call threw. The table changes only by one new record, built from the request with role USER and the password's digest. It changes exactly when the checks pass, the e-mail is new and lookup, hash and create did not throw. When the table is unchanged, so is the id counter. The 201 body's `user` holds the record's fields except the password, plus a token over {userId, role} issued at `now` that expires one day later. A well-formed table stays well formed. |
| `AuthController.Register` | server/controllers/auth.controller.js:6-77 | Register runs the same checks against the table object, calling `FindUnique` and `Create`. Its answer, new table and next id equal `RegisterOutcome` of the old table. It keeps the table's invariant: each key is its record's e-mail, and ids are distinct. |
| `AuthController.Login` | server/controllers/auth.controller.js:81-128 | Login is a function of the table, so it never writes. 400 "Email and password are required" holds exactly when a field is missing. 401 "Invalid credentials love" holds exactly for an unknown e-mail. 401 "Invalid credentials" holds exactly for a stored e-mail whose compare fails. 200 holds exactly when compare succeeds and no call threw. The 200 body is a token over the stored {id, role}, issued at `now` and expiring one day later, plus the record's fields except the password. 500 "Server error", with no detail, holds exactly when both fields are given and lookup threw, or the e-mail is stored and compare threw, or the password matched and sign threw. |
| `AuthController.RegisterThenLogin` | server/controllers/auth.controller.js:39-110 | Take a successful registration at time `now`, and a `compare` that accepts a password against its own hash. Logging in at time `later` with the same e-mail and password then answers 200. Login's `user` has the same id, names, e-mail and role as register's `user`. Its token has the same claims, secret and lifetime. The two tokens are equal exactly when `later == now`, because `jwt.sign` stamps the issue time. |
| `AuthController.RegisterTwice` | server/controllers/auth.controller.js:31-37 | After a successful registration, another valid registration for the same e-mail answers 409 "Email already in use" and leaves the table unchanged. |
| `AuthController.SignFailureKeepsAccount` | server/controllers/auth.controller.js:42-77 | When only `jwt.sign` throws, register answers 500 with that message. The new record is nevertheless stored, and repeating the registration answers 409. |
| `AuthController.CredentialFailuresDiffer` | server/controllers/auth.controller.js:93-104 | Take a stored e-mail with a non-matching password. That login and the same login after the account is removed both answer 401, but with different messages. |
| `AuthController.WhitespaceNamesPassPresenceCheck` | server/controllers/auth.controller.js:11-16 | The presence check is truthiness, so a request whose first name is " " and last name is a tab, with a non-empty e-mail and password, does not get the missing-fields 400. It gets the invalid-format 400 exactly when `isEmail` rejects the e-mail. |
| `AuthController.SignedTokensEqual` | server/controllers/auth.controller.js:54-58 | A signed token lives one day (86400 seconds). Two signed tokens are equal exactly when they carry the same claims and secret and were issued at the same second; login signs the same way at lines 106-110. |
| `AuthController.SummaryHidesOnlyPassword` | server/controllers/auth.controller.js:116-122 | Two records give the same answer `user` object exactly when they differ at most in the password digest: the answer hides the digest and shows every other field. Register's `user` (lines 63-69) holds the same fields plus the token. |
| `UserStore.UserTable.constructor` | server/db.js:3 | A new table is empty, its id counter is 0, and it is well formed. |
| `UserStore.UserTable.FindUnique` | server/controllers/auth.controller.js:32-33 | Returns a record exactly when the e-mail is stored. That record is the one stored under the e-mail, and its e-mail field equals the key. |
| `UserStore.UserTable.Create` | server/controllers/auth.controller.js:43-51 | Stores exactly one new record, under a fresh e-mail, with the next id. All other records stay the same, the id counter goes up by one, and the table stays well formed. |
| `EmailPattern.IsSpace` | client/src/pages/RegisterPage.jsx:24 | The code points of JavaScript's `\s`. Neither '@' nor '.' is one of them, and space, tab, newline and carriage return are. |
| `EmailPattern.MatchesEmailRegex` | client/src/pages/RegisterPage.jsx:24-25 | The pattern read piece by piece, as used here and at LoginPage.jsx:21-22. A matched string has at least five characters and contains an '@' and a '.'. |
| `EmailPattern.EmailRegexShape` | client/src/pages/RegisterPage.jsx:24-25 | The pattern matches a string exactly when the string has no whitespace, exactly one '@', a non-empty local part, and a '.' in the domain that is neither its first nor its last character. |
| `EmailPattern.RegexImpliesShape` | client/src/pages/RegisterPage.jsx:24-25 | A string the pattern matches has that shape. |
| `EmailPattern.ShapeImpliesRegex` | client/src/pages/LoginPage.jsx:21-22 | A string of that shape is matched by the pattern. |
| `RegisterPage.RegisterError` | client/src/pages/RegisterPage.jsx:19-38 | The error is the one from the first failing check, in the order empty field, e-mail shape, length < 6, confirmation mismatch. Each message holds exactly when the earlier checks pass and its own fails. No error holds exactly when all four checks pass. |
| `RegisterPage.RegisterForm.constructor` | client/src/pages/RegisterPage.jsx:9-13 | All four fields start empty and the error starts as null. |
| `RegisterPage.RegisterForm.HandleRegister` | client/src/pages/RegisterPage.jsx:15-51 | The error becomes `RegisterError` of the entered values. On an error, all four fields keep what was typed. On success, the error is null and all four fields are "". |
| `RegisterPage.WhitespaceFullNameAccepted` | client/src/pages/RegisterPage.jsx:19 | A non-empty, all-whitespace full name passes the emptiness check: with a valid e-mail and a matching password of length ≥ 6, the form is accepted. |
| `RegisterPage.ShortPasswordHidesMismatch` | client/src/pages/RegisterPage.jsx:30-38 | A short password that also differs from its confirmation is reported as too short, not as a mismatch. |
| `LoginPage.LoginError` | client/src/pages/LoginPage.jsx:16-30 | The error is the one from the first failing check, in the order empty field, e-mail shape, length < 6. There is no confirmation check. No error holds exactly when all three checks pass. |
| `LoginPage.LoginForm.constructor` | client/src/pages/LoginPage.jsx:9-11 | Both fields start empty and the error starts as null. |
| `LoginPage.LoginForm.HandleLogin` | client/src/pages/LoginPage.jsx:13-37 | The error becomes `LoginError` of the entered values. On an error, the e-mail and password are unchanged. On success, the error is null and both fields are "". |
| `LoginPage.LoginMatchesRegistration` | client/src/pages/LoginPage.jsx:16-30 | For any non-empty name, the login form's verdict on (e-mail, password) is the registration form's verdict on the same values with the password repeated as confirmation. |

## Left out

- JSX rendering, the Aurora and Alert components, styling, `console.log`, `alert` and `e.preventDefault()`: these are UI and I/O.
- The inputs' `onChange` handlers are not modelled. The form fields are plain fields that a caller assigns.
- React applies `setState` calls after the handler returns. The model assigns the fields directly, which gives the same final state.
- Password lengths are counted in Dafny characters, which are Unicode scalar values.
  - The forms use JavaScript's `password.length`, which counts UTF-16 code units. It differs from the model's count for characters outside the Basic Multilingual Plane, which count twice.
  - The server uses `validator.isLength`, which counts a surrogate pair once and so agrees with the model there. It does not count the variation selectors U+FE0E and U+FE0F, where it differs from the model's count.
  - Neither difference affects the e-mail pattern, because every code unit of such a character is in `[^\s@]`.
- bcrypt internals are not modelled.
  - `bcrypt.hash` is a parameter function of the plaintext, the cost 10 and the drawn salt.
  - `bcrypt.compare` is a parameter predicate.
  - Whether the two agree is assumed only where a lemma states it (`CompareAcceptsOwnHash`).
- `jwt.sign` cryptography is not modelled. A token records its claims `{userId, role}`, the secret, and the `iat` and `exp` claims. The clock `jwt.sign` reads is the parameter `now`. The encoded token string and its signature are not modelled. No token is verified, because no code in the core verifies one.
- `validator.isEmail` is not modelled. It is a parameter predicate, because the library's grammar is not part of this model.
- Request-body fields are absent or strings.
  - JSON `null` counts as absent.
  - Other JSON values (numbers, objects) are left out. A truthy non-string e-mail would make `validator.isEmail` throw, and the request would answer 500.
- Prisma and MongoDB are represented by a map keyed by e-mail. Record ids come from a counter, standing in for the database-assigned ObjectId.
- `UserStore.UserTable.Create` requires an e-mail that is not yet stored, so the table never holds two records for one e-mail. Two concurrent registrations racing between `findUnique` and `create` are not modelled, because the model is sequential and has no async/await.
- `server/server.js`, `server/app.js`, `server/routes/goal.routes.js`, `client/src/App.jsx` and `client/src/routes/index.jsx` are framework wiring and are not part of this model.
- The `beforeLoad` hook in `client/src/routes/dashboard.jsx` depends on an `isAuthenticated` helper whose source is not part of this model.
- `handleLogout` in `DashboardPage.jsx` only uses `localStorage` and `window.location`, which are browser I/O.
