/**
 * The authentication controller (server/controllers/auth.controller.js):
 * `register` and `login`, each a sequence of early-return checks that picks
 * the HTTP status and JSON body of the response.
 *
 * The libraries the controller calls are not modelled; they are parameters:
 * `Services` holds `validator.isEmail`, `bcrypt.hash`, `bcrypt.compare` and
 * the signing secret; the clock `jwt.sign` reads is the parameter `now`; and
 * the `...Faults` records say, for each call that can throw, whether it threw
 * (and with what `err.message`), so that the `catch` paths can be stated.
 */
module AuthController {
  import opened Wrappers
  import opened UserStore

  const DefaultRole := "USER"
  /** The bcrypt work factor passed to `bcrypt.hash`. */
  const SaltRounds := 10
  /**
   * The `expiresIn: "1d"` option of `jwt.sign`: one day, in seconds, the
   * distance `jwt.sign` puts between the `iat` and `exp` claims.
   */
  const TokenLifetimeSeconds := 86400
  const MinPasswordLength := 6

  const MissingRegisterFields := "Please provide firstname, lastname, email, and password"
  const InvalidEmailFormat := "Invalid email format"
  const PasswordTooShort := "Password must be at least 6 characters long"
  const EmailInUse := "Email already in use"
  const RegisteredOk := "User registered successfully"
  const MissingLoginFields := "Email and password are required"
  const UnknownEmail := "Invalid credentials love"
  const WrongPassword := "Invalid credentials"
  const LoginOk := "Login successful"
  const ServerError := "Server error"

  /** A request-body field: absent, or present as a string. */
  type Field = Option<string>

  /** JavaScript truthiness of a field: `undefined`, `null` and `""` are falsy, every other string is truthy. */
  predicate Given(f: Field) {
    f.Some? && f.value != ""
  }

  datatype RegisterRequest = RegisterRequest(firstname: Field, lastname: Field, email: Field, password: Field)
  datatype LoginRequest = LoginRequest(email: Field, password: Field)

  /** The `user` object of the login answer: `{ id, firstname, lastname, email, role }`. */
  datatype UserSummary = UserSummary(id: nat, firstname: string, lastname: string, email: string, role: string)

  /** The record as the answers show it: every field but the password digest. */
  function Summary(u: UserRecord): UserSummary {
    UserSummary(u.id, u.firstname, u.lastname, u.email, u.role)
  }

  /** The JWT payload the controller passes to `jwt.sign`. */
  datatype Claims = Claims(userId: nat, role: string)

  /**
   * A signed token: the payload, the secret it was signed with, and the
   * `iat` and `exp` claims (seconds) that `jwt.sign` adds.
   */
  datatype Token = Token(claims: Claims, secret: string, iat: nat, exp: nat)

  /** `jwt.sign(claims, secret, { expiresIn: "1d" })` at clock time `now` (seconds). */
  function Sign(claims: Claims, secret: string, now: nat): Token {
    Token(claims, secret, now, now + TokenLifetimeSeconds)
  }

  /** The `user` object of the register answer: `{ id, firstname, lastname, email, role, token }`. */
  datatype RegisteredUser = RegisteredUser(id: nat, firstname: string, lastname: string, email: string, role: string, token: Token)

  function RegisteredView(u: UserRecord, token: Token): RegisteredUser {
    RegisteredUser(u.id, u.firstname, u.lastname, u.email, u.role, token)
  }

  /** The `error` member of an error body: absent, `true`, or an exception message. */
  datatype ErrorField = NoErrorField | ErrorFlag | ErrorText(text: string)

  datatype Body =
    | Message(message: string, error: ErrorField)
    // `{ message, user: { id, firstname, lastname, email, role, token } }`
    | Registered(message: string, userWithToken: RegisteredUser)   // JSON key `user`
    // `{ message, token, user: { id, firstname, lastname, email, role } }`
    | LoggedIn(message: string, token: Token, user: UserSummary)

  datatype Response = Response(status: nat, body: Body)

  /** The random salt `bcrypt.hash` draws for one call. */
  type Salt = nat

  datatype Services = Services(
    isEmail: string -> bool,                 // validator.isEmail
    hash: (string, nat, Salt) -> string,     // bcrypt.hash(plain, rounds), given the salt it drew
    compare: (string, string) -> bool,       // bcrypt.compare(plain, digest)
    secret: string)                          // process.env.JWT_SECRET

  /** `bcrypt.compare` accepts every password against a digest made from it. */
  ghost predicate CompareAcceptsOwnHash(svc: Services) {
    forall plain, rounds, salt :: svc.compare(plain, svc.hash(plain, rounds, salt))
  }

  /** For each call in `register` that can throw: the message of the exception it threw, if it threw. */
  datatype RegisterFaults = RegisterFaults(lookup: Option<string>, hash: Option<string>, create: Option<string>, sign: Option<string>)
  /** For each call in `login` that can throw: the message of the exception it threw, if it threw. */
  datatype LoginFaults = LoginFaults(lookup: Option<string>, compare: Option<string>, sign: Option<string>)

  const NoRegisterFaults := RegisterFaults(None, None, None, None)
  const NoLoginFaults := LoginFaults(None, None, None)

  // ---------------------------------------------------------------- register

  /** All four register fields are given, the e-mail passes `isEmail` and the password has at least six characters. */
  predicate RegisterInputValid(req: RegisterRequest, svc: Services) {
    && Given(req.firstname) && Given(req.lastname) && Given(req.email) && Given(req.password)
    && svc.isEmail(req.email.value)
    && |req.password.value| >= MinPasswordLength
  }

  /** The record `register` creates for a valid request: role USER and the digest, never the plaintext. */
  function NewRecord(req: RegisterRequest, svc: Services, salt: Salt, id: nat): UserRecord
    requires RegisterInputValid(req, svc)
  {
    UserRecord(id, req.firstname.value, req.lastname.value, req.email.value,
               svc.hash(req.password.value, SaltRounds, salt), DefaultRole)
  }

  function ValidationError(message: string): Response {
    Response(400, Message(message, ErrorFlag))
  }

  /** The catch path of `register`: 500 with the exception's message. */
  function RegisterCrash(message: string): Response {
    Response(500, Message(ServerError, ErrorText(message)))
  }

  /** The message of the first call that threw, in the order `register` makes them: lookup, hash, create, sign. */
  function FirstThrown(faults: RegisterFaults): Option<string> {
    if faults.lookup.Some? then faults.lookup
    else if faults.hash.Some? then faults.hash
    else if faults.create.Some? then faults.create
    else faults.sign
  }

  /** What one call of `register` answers and leaves in the table. */
  datatype Registration = Registration(response: Response, users: map<string, UserRecord>, nextId: nat)

  /**
   * `register` on a table snapshot. The checks run in order (missing field,
   * e-mail format, password length, existing e-mail); the first that fails
   * decides a 400 or 409 answer and nothing is stored. A valid request for a
   * new e-mail stores exactly one record and answers 201, unless a call
   * throws, which answers 500 with the message of the first call that threw.
   * A throw from `jwt.sign` comes after the record has been created, so that
   * record stays.
   */
  function RegisterOutcome(users: map<string, UserRecord>, nextId: nat, req: RegisterRequest,
                           svc: Services, salt: Salt, now: nat, faults: RegisterFaults): (r: Registration)
    ensures r.response.status in {201, 400, 409, 500}
    ensures r.response == ValidationError(MissingRegisterFields) <==>
      !(Given(req.firstname) && Given(req.lastname) && Given(req.email) && Given(req.password))
    ensures r.response == ValidationError(InvalidEmailFormat) <==>
      Given(req.firstname) && Given(req.lastname) && Given(req.email) && Given(req.password)
      && !svc.isEmail(req.email.value)
    ensures r.response == ValidationError(PasswordTooShort) <==>
      Given(req.firstname) && Given(req.lastname) && Given(req.email) && Given(req.password)
      && svc.isEmail(req.email.value) && |req.password.value| < MinPasswordLength
    ensures r.response.status == 400 <==> !RegisterInputValid(req, svc)
    ensures r.response.status == 409 <==>
      RegisterInputValid(req, svc) && faults.lookup.None? && req.email.value in users
    ensures r.response.status == 409 ==> r.response.body == Message(EmailInUse, ErrorFlag)
    ensures r.response.status in {400, 409} ==> r.users == users && r.nextId == nextId
    ensures r.response.status == 500 <==>
      && RegisterInputValid(req, svc)
      && (faults.lookup.Some?
          || (req.email.value !in users && (faults.hash.Some? || faults.create.Some? || faults.sign.Some?)))
    ensures r.response.status == 500 ==>
      FirstThrown(faults).Some? && r.response == RegisterCrash(FirstThrown(faults).value)
    ensures r.response.status == 201 <==>
      RegisterInputValid(req, svc) && req.email.value !in users && faults == NoRegisterFaults
    // the table changes only by one new record, built from the request
    ensures r.users == users || (
      && RegisterInputValid(req, svc)
      && r.nextId == nextId + 1
      && InsertedOne(users, r.users, NewRecord(req, svc, salt, nextId)))
    ensures r.users == users ==> r.nextId == nextId
    ensures r.users != users <==>
      RegisterInputValid(req, svc) && req.email.value !in users
      && faults.lookup.None? && faults.hash.None? && faults.create.None?
    ensures r.response.status == 201 ==>
      var u := r.users[req.email.value];
      && u.role == DefaultRole
      && u.password == svc.hash(req.password.value, SaltRounds, salt)
      && r.response.body == Registered(RegisteredOk, RegisteredView(u, Sign(Claims(u.id, u.role), svc.secret, now)))
    ensures WellFormed(users, nextId) ==> WellFormed(r.users, r.nextId)
  {
    if !(Given(req.firstname) && Given(req.lastname) && Given(req.email) && Given(req.password)) then
      Registration(ValidationError(MissingRegisterFields), users, nextId)
    else if !svc.isEmail(req.email.value) then
      Registration(ValidationError(InvalidEmailFormat), users, nextId)
    else if |req.password.value| < MinPasswordLength then
      Registration(ValidationError(PasswordTooShort), users, nextId)
    else if faults.lookup.Some? then
      Registration(RegisterCrash(faults.lookup.value), users, nextId)
    else if req.email.value in users then
      Registration(Response(409, Message(EmailInUse, ErrorFlag)), users, nextId)
    else if faults.hash.Some? then
      Registration(RegisterCrash(faults.hash.value), users, nextId)
    else if faults.create.Some? then
      Registration(RegisterCrash(faults.create.value), users, nextId)
    else
      var created := NewRecord(req, svc, salt, nextId);
      var users' := users[created.email := created];
      assert users' != users by { assert created.email in users'; }
      if faults.sign.Some? then
        Registration(RegisterCrash(faults.sign.value), users', nextId + 1)
      else
        var token := Sign(Claims(created.id, created.role), svc.secret, now);
        Registration(Response(201, Registered(RegisteredOk, RegisteredView(created, token))), users', nextId + 1)
  }

  /**
   * `register` against the table: the same decisions as `RegisterOutcome`,
   * reached by looking the e-mail up and creating the record in the table.
   */
  method Register(table: UserTable, req: RegisterRequest, svc: Services, salt: Salt, now: nat, faults: RegisterFaults)
    returns (res: Response)
    requires table.Valid()
    modifies table
    ensures table.Valid()
    ensures var r := RegisterOutcome(old(table.users), old(table.nextId), req, svc, salt, now, faults);
      res == r.response && table.users == r.users && table.nextId == r.nextId
  {
    if !(Given(req.firstname) && Given(req.lastname) && Given(req.email) && Given(req.password)) {
      return ValidationError(MissingRegisterFields);
    }
    var email, password := req.email.value, req.password.value;
    if !svc.isEmail(email) {
      return ValidationError(InvalidEmailFormat);
    }
    if |password| < MinPasswordLength {
      return ValidationError(PasswordTooShort);
    }
    if faults.lookup.Some? {
      return RegisterCrash(faults.lookup.value);
    }
    var existing := table.FindUnique(email);
    if existing.Some? {
      return Response(409, Message(EmailInUse, ErrorFlag));
    }
    if faults.hash.Some? {
      return RegisterCrash(faults.hash.value);
    }
    var hashed := svc.hash(password, SaltRounds, salt);
    if faults.create.Some? {
      return RegisterCrash(faults.create.value);
    }
    var created := table.Create(req.firstname.value, req.lastname.value, email, hashed, DefaultRole);
    if faults.sign.Some? {
      return RegisterCrash(faults.sign.value);
    }
    var token := Sign(Claims(created.id, created.role), svc.secret, now);
    return Response(201, Registered(RegisteredOk, RegisteredView(created, token)));
  }

  // ------------------------------------------------------------------- login

  /**
   * `login` on a table snapshot; it never writes. Missing fields answer 400,
   * an unknown e-mail 401 "Invalid credentials love", a wrong password 401
   * "Invalid credentials", a match 200 with a token for the stored record,
   * and a throw from any call 500 "Server error".
   */
  function Login(users: map<string, UserRecord>, req: LoginRequest, svc: Services, now: nat, faults: LoginFaults): (r: Response)
    ensures r.status in {200, 400, 401, 500}
    ensures r.status == 400 <==> !Given(req.email) || !Given(req.password)
    ensures r.status == 400 ==> r.body == Message(MissingLoginFields, NoErrorField)
    ensures r == Response(401, Message(UnknownEmail, NoErrorField)) <==>
      Given(req.email) && Given(req.password) && faults.lookup.None? && req.email.value !in users
    ensures r == Response(401, Message(WrongPassword, NoErrorField)) <==>
      && Given(req.email) && Given(req.password) && faults.lookup.None? && req.email.value in users
      && faults.compare.None? && !svc.compare(req.password.value, users[req.email.value].password)
    ensures r.status == 401 ==> r.body.Message? && r.body.message in {UnknownEmail, WrongPassword}
    ensures r.status == 200 <==>
      && Given(req.email) && Given(req.password) && req.email.value in users
      && faults == NoLoginFaults && svc.compare(req.password.value, users[req.email.value].password)
    ensures r.status == 200 ==>
      var u := users[req.email.value];
      r.body == LoggedIn(LoginOk, Sign(Claims(u.id, u.role), svc.secret, now), Summary(u))
    ensures r.status == 500 <==>
      && Given(req.email) && Given(req.password)
      && (|| faults.lookup.Some?
          || (req.email.value in users
              && (|| faults.compare.Some?
                  || (svc.compare(req.password.value, users[req.email.value].password) && faults.sign.Some?))))
    ensures r.status == 500 ==> r.body == Message(ServerError, NoErrorField)
  {
    if !Given(req.email) || !Given(req.password) then
      Response(400, Message(MissingLoginFields, NoErrorField))
    else if faults.lookup.Some? then
      Response(500, Message(ServerError, NoErrorField))
    else if req.email.value !in users then
      Response(401, Message(UnknownEmail, NoErrorField))
    else
      var user := users[req.email.value];
      if faults.compare.Some? then
        Response(500, Message(ServerError, NoErrorField))
      else if !svc.compare(req.password.value, user.password) then
        Response(401, Message(WrongPassword, NoErrorField))
      else if faults.sign.Some? then
        Response(500, Message(ServerError, NoErrorField))
      else
        Response(200, LoggedIn(LoginOk, Sign(Claims(user.id, user.role), svc.secret, now), Summary(user)))
  }

  // --------------------------------------------------------- answer pieces

  /**
   * Two users show the same summary exactly when their records differ at
   * most in the password digest: the answers hide the digest and nothing else.
   */
  lemma SummaryHidesOnlyPassword(u: UserRecord, v: UserRecord)
    ensures Summary(u) == Summary(v) <==> u.(password := v.password) == v
  {
  }

  /**
   * Every signed token lives one day, and two tokens are equal exactly when
   * they carry the same claims and secret and were issued at the same second.
   */
  lemma SignedTokensEqual(claims1: Claims, secret1: string, now1: nat, claims2: Claims, secret2: string, now2: nat)
    ensures Sign(claims1, secret1, now1).exp - Sign(claims1, secret1, now1).iat == TokenLifetimeSeconds
    ensures Sign(claims1, secret1, now1) == Sign(claims2, secret2, now2) <==>
      claims1 == claims2 && secret1 == secret2 && now1 == now2
  {
  }

  /**
   * The presence check at the top of `register` is truthiness: names made
   * only of whitespace pass it, and such a request goes on to the e-mail and
   * password checks.
   */
  lemma WhitespaceNamesPassPresenceCheck(users: map<string, UserRecord>, nextId: nat, email: string, password: string,
                                         svc: Services, salt: Salt, now: nat, faults: RegisterFaults)
    requires email != "" && password != ""
    ensures var r := RegisterOutcome(users, nextId, RegisterRequest(Some(" "), Some("\t"), Some(email), Some(password)),
                                     svc, salt, now, faults);
      && r.response != ValidationError(MissingRegisterFields)
      && (r.response == ValidationError(InvalidEmailFormat) <==> !svc.isEmail(email))
  {
  }

  // ------------------------------------------------------- across operations

  /**
   * Registering at time `now` and then logging in at time `later` with the
   * same e-mail and password succeeds, provided `bcrypt.compare` accepts a
   * password against its own digest and no call throws. Login shows the
   * account just created and signs the same claims with the same secret and
   * lifetime; its token differs from the register token only in the issue
   * time. Register puts the token inside `user`, login beside it.
   */
  lemma RegisterThenLogin(users: map<string, UserRecord>, nextId: nat, req: RegisterRequest,
                          svc: Services, salt: Salt, now: nat, later: nat)
    requires CompareAcceptsOwnHash(svc)
    requires RegisterOutcome(users, nextId, req, svc, salt, now, NoRegisterFaults).response.status == 201
    ensures var r := RegisterOutcome(users, nextId, req, svc, salt, now, NoRegisterFaults);
      var l := Login(r.users, LoginRequest(req.email, req.password), svc, later, NoLoginFaults);
      var reg := r.response.body.userWithToken;
      && l.status == 200
      && l.body.user == UserSummary(reg.id, reg.firstname, reg.lastname, reg.email, reg.role)
      && l.body.token.claims == reg.token.claims && l.body.token.secret == reg.token.secret
      && l.body.token.exp - l.body.token.iat == reg.token.exp - reg.token.iat
      && (l.body.token == reg.token <==> later == now)
  {
  }

  /**
   * A second registration for an e-mail that was just registered answers 409
   * and leaves the table as it was: one record for that e-mail.
   */
  lemma RegisterTwice(users: map<string, UserRecord>, nextId: nat, req: RegisterRequest, svc: Services,
                      salt: Salt, now: nat, req2: RegisterRequest, salt2: Salt, now2: nat, faults2: RegisterFaults)
    requires RegisterOutcome(users, nextId, req, svc, salt, now, NoRegisterFaults).response.status == 201
    requires RegisterInputValid(req2, svc) && req2.email == req.email && faults2.lookup.None?
    ensures var r := RegisterOutcome(users, nextId, req, svc, salt, now, NoRegisterFaults);
      var r2 := RegisterOutcome(r.users, r.nextId, req2, svc, salt2, now2, faults2);
      && r2.response == Response(409, Message(EmailInUse, ErrorFlag))
      && r2.users == r.users && r2.nextId == r.nextId
  {
  }

  /**
   * When `jwt.sign` throws (for example with no signing secret configured),
   * the client sees a 500, yet the account has been stored: a retry of the
   * same registration answers 409.
   */
  lemma SignFailureKeepsAccount(users: map<string, UserRecord>, nextId: nat, req: RegisterRequest,
                                svc: Services, salt: Salt, now: nat, message: string, salt2: Salt, now2: nat)
    requires RegisterInputValid(req, svc) && req.email.value !in users
    ensures var faults := RegisterFaults(None, None, None, Some(message));
      var r := RegisterOutcome(users, nextId, req, svc, salt, now, faults);
      var retry := RegisterOutcome(r.users, r.nextId, req, svc, salt2, now2, NoRegisterFaults);
      && r.response == RegisterCrash(message)
      && req.email.value in r.users && r.users[req.email.value] == NewRecord(req, svc, salt, nextId)
      && retry.response.status == 409
  {
  }

  /**
   * The two credential failures share the 401 status but not the message:
   * removing an account whose password does not match changes the answer,
   * so the answer tells whether the e-mail is registered.
   */
  lemma CredentialFailuresDiffer(users: map<string, UserRecord>, req: LoginRequest, svc: Services, now: nat)
    requires Given(req.email) && Given(req.password) && req.email.value in users
    requires !svc.compare(req.password.value, users[req.email.value].password)
    ensures var wrong := Login(users, req, svc, now, NoLoginFaults);
      var unknown := Login(users - {req.email.value}, req, svc, now, NoLoginFaults);
      && wrong.status == unknown.status == 401
      && wrong.body.message != unknown.body.message
  {
  }

}
