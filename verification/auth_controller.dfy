/**
 The register and login request handlers. Each runs a straight line of steps
 and answers at the first failing one. A handler here is a pure function from
 the table and the request body to a `Reply`: the HTTP answer, the table
 afterwards, and the calls it made on the store and on the hashing and token
 libraries, in order.
 */
module AuthController {
  import opened JsValues
  import opened Validation
  import opened UserStore
  import EmailPattern

  const EmailInUse := "Email already in use."
  const UserRegistered := "User registered successfully."
  const UserNotFound := "User not found."
  const InvalidCredentials := "Invalid credentials."
  const LoginSuccessful := "Login successful."

  /** The token lifetime `expiresIn: '1h'`, in seconds. */
  const TokenLifetime := 3600

  /** The claims of an issued token: the `id` the handler signs, `iat` (issued
      at) and `exp` (expiration time, section 4.1.4 of RFC 7519), in seconds
      since the epoch. */
  datatype Claims = Claims(id: nat, iat: nat, exp: nat)

  /** A signed token: its claims and the MAC computed over them. */
  datatype Token = Token(claims: Claims, signature: string)

  /** The foreign libraries, as functions the model knows nothing about:
      `hash` is bcrypt's hash (its salt is part of which function is passed),
      `compare` is bcrypt's compare of a plaintext with a stored hash, and
      `mac` is the token library's signature under the process secret. */
  datatype Crypto = Crypto(
    hash: string -> string,
    compare: (string, string) -> bool,
    mac: Claims -> string)

  /** `compare` accepts a plaintext against its own hash. */
  ghost predicate Sound(c: Crypto) {
    forall p: string :: c.compare(p, c.hash(p))
  }

  /** `compare` accepts exactly the plaintext the hash was made from. */
  ghost predicate Exact(c: Crypto) {
    forall p: string, q: string :: c.compare(p, c.hash(q)) <==> p == q
  }

  /** A call made on a collaborator. */
  datatype Call =
    | FindUserByEmailCall(key: Field)
    | HashCall(password: string)
    | CreateUserCall(name: string, email: string, hashed: string)
    | CompareCall(plaintext: Field, hashed: string)
    | SignCall(id: nat, iat: nat)

  /** A JSON response body. */
  datatype Body =
    | Registered(message: string, userId: nat)
    | LoggedIn(message: string, token: Token)
    | Failed(error: string)

  /** The handler's answer: a JSON response with a status code, or `next(err)`,
      which hands a thrown error to the error-handling middleware. */
  datatype Response = Json(status: nat, body: Body) | Next

  datatype Reply = Reply(response: Response, store: Store, calls: seq<Call>)

  /** The `{ email, password }` record a login request carries. */
  datatype LoginInput = LoginInput(email: Field, password: Field)

  /** The token library's `sign({ id }, secret, { expiresIn: '1h' })` at time
      `now`: the token carries the given id, was issued at `now`, and expires
      exactly one hour after it was issued. */
  function Sign(c: Crypto, id: nat, now: nat): (t: Token)
    ensures t.claims.id == id && t.claims.iat == now
    ensures t.claims.exp == t.claims.iat + TokenLifetime
  {
    var claims := Claims(id, now, now + TokenLifetime);
    Token(claims, c.mac(claims))
  }

  /** Registration: validate, reject a known email, hash, insert, answer 201.
      The table changes only on a 201 answer, and then by exactly one new row
      at the end; the handler never compares passwords or issues a token. */
  function Register(c: Crypto, s: Store, body: RegistrationInput): (r: Reply)
    ensures r.response.Json? && r.response.status in {201, 400}
    ensures r.response.status == 400 ==> r.store == s && r.response.body.Failed?
    ensures r.response.status == 201 ==>
              && |r.store.rows| == |s.rows| + 1 && r.store.rows[..|s.rows|] == s.rows
              && r.response.body.Registered?
              && r.store.rows[|s.rows|].id == r.response.body.userId
    ensures forall i | 0 <= i < |r.calls| :: !r.calls[i].CompareCall? && !r.calls[i].SignCall?
  {
    match ValidateInput(body)
    case Some(msg) => Reply(Json(400, Failed(msg)), s, [])
    case None =>
      var lookup := FindUserByEmailCall(body.email);
      match FindUserByEmail(s, body.email)
      case Some(_) => Reply(Json(400, Failed(EmailInUse)), s, [lookup])
      case None =>
        var hashed := c.hash(body.password.text);
        var ins := CreateUser(s, body.name.text, body.email.text, hashed);
        Reply(Json(201, Registered(UserRegistered, ins.insertId)), ins.store,
              [lookup, HashCall(body.password.text), CreateUserCall(body.name.text, body.email.text, hashed)])
  }

  /** Login: look the email up, compare the password with the stored hash,
      sign a token. The table never changes, and no password is hashed and no
      row inserted. */
  function Login(c: Crypto, s: Store, body: LoginInput, now: nat): (r: Reply)
    ensures r.store == s
    ensures r.response.Json? ==> r.response.status in {200, 401, 404}
    ensures forall i | 0 <= i < |r.calls| :: !r.calls[i].HashCall? && !r.calls[i].CreateUserCall?
  {
    var lookup := FindUserByEmailCall(body.email);
    match FindUserByEmail(s, body.email)
    case None => Reply(Json(404, Failed(UserNotFound)), s, [lookup])
    case Some(user) =>
      var check := CompareCall(body.password, user.password);
      match body.password
      case Absent => Reply(Next, s, [lookup, check])
      case Str(pw) =>
        if !c.compare(pw, user.password) then
          Reply(Json(401, Failed(InvalidCredentials)), s, [lookup, check])
        else
          Reply(Json(200, LoggedIn(LoginSuccessful, Sign(c, user.id, now))), s,
                [lookup, check, SignCall(user.id, now)])
  }

  /** Invalid input: 400 with exactly the validator's message, no call on any
      collaborator, table unchanged. */
  lemma RegisterRejectsInvalid(c: Crypto, s: Store, body: RegistrationInput)
    requires !Acceptable(body)
    ensures ValidateInput(body).Some?
    ensures Register(c, s, body) == Reply(Json(400, Failed(ValidateInput(body).value)), s, [])
  {
  }

  /** A known email: 400 "Email already in use.", the lookup is the only call
      (so nothing is hashed or inserted), table unchanged. */
  lemma RegisterRejectsDuplicate(c: Crypto, s: Store, body: RegistrationInput)
    requires Acceptable(body) && HasEmail(s.rows, body.email.text)
    ensures Register(c, s, body) == Reply(Json(400, Failed(EmailInUse)), s, [FindUserByEmailCall(body.email)])
  {
  }

  /** Success: 201 with the new id; the table gains exactly one row holding the
      name, the email and the hash of the password, under a fresh id, and all
      earlier rows are unchanged. */
  lemma RegisterSucceeds(c: Crypto, s: Store, body: RegistrationInput)
    requires Acceptable(body) && !HasEmail(s.rows, body.email.text)
    ensures var r := Register(c, s, body);
            && r.response == Json(201, Registered(UserRegistered, s.nextId))
            && r.store.rows == s.rows + [User(s.nextId, body.name.text, body.email.text, c.hash(body.password.text))]
            && r.calls == [FindUserByEmailCall(body.email), HashCall(body.password.text),
                           CreateUserCall(body.name.text, body.email.text, c.hash(body.password.text))]
            && (Valid(s) ==> forall i | 0 <= i < |s.rows| :: s.rows[i].id != s.nextId)
  {
  }

  /** Registration keeps the table invariant, in particular that no two rows
      share an email. */
  lemma RegisterPreservesValid(c: Crypto, s: Store, body: RegistrationInput)
    requires Valid(s)
    ensures Valid(Register(c, s, body).store)
  {
    if Acceptable(body) && !HasEmail(s.rows, body.email.text) {
      CreateUserPreservesValid(s, body.name.text, body.email.text, c.hash(body.password.text));
    }
  }

  /** An unknown email: 404 "User not found.", the lookup is the only call, so
      the password is never compared. */
  lemma LoginUnknownEmail(c: Crypto, s: Store, body: LoginInput, now: nat)
    requires body.email.Absent? || !HasEmail(s.rows, body.email.text)
    ensures Login(c, s, body, now) == Reply(Json(404, Failed(UserNotFound)), s, [FindUserByEmailCall(body.email)])
  {
  }

  /** A wrong password for a known email: 401 "Invalid credentials.", and no
      token is signed. */
  lemma LoginWrongPassword(c: Crypto, s: Store, body: LoginInput, now: nat, user: User)
    requires FindUserByEmail(s, body.email) == Some(user)
    requires body.password.Str? && !c.compare(body.password.text, user.password)
    ensures var r := Login(c, s, body, now);
            && r.response == Json(401, Failed(InvalidCredentials))
            && forall i | 0 <= i < |r.calls| :: !r.calls[i].SignCall?
  {
  }

  /** A known email with an absent password: `compare` is still called, with
      no plaintext, and throws, so the handler hands the error to `next(err)`
      and signs no token. */
  lemma LoginAbsentPassword(c: Crypto, s: Store, body: LoginInput, now: nat, user: User)
    requires FindUserByEmail(s, body.email) == Some(user)
    requires body.password.Absent?
    ensures Login(c, s, body, now)
              == Reply(Next, s, [FindUserByEmailCall(body.email), CompareCall(Absent, user.password)])
  {
  }

  /** The right password for a known email: "Login successful." with a token
      for the row's id that expires exactly one hour after it was issued. */
  lemma LoginSucceeds(c: Crypto, s: Store, body: LoginInput, now: nat, user: User)
    requires FindUserByEmail(s, body.email) == Some(user)
    requires body.password.Str? && c.compare(body.password.text, user.password)
    ensures var r := Login(c, s, body, now);
            && r.response.Json? && r.response.status == 200
            && r.response.body.LoggedIn? && r.response.body.message == LoginSuccessful
            && r.response.body.token.claims.id == user.id
            && r.response.body.token.claims.iat == now
            && r.response.body.token.claims.exp == r.response.body.token.claims.iat + TokenLifetime
  {
  }

  /** Logging in with the credentials just registered succeeds, with a token
      for the id the registration answered with (when `compare` accepts a
      plaintext against its own hash). */
  lemma RegisterThenLogin(c: Crypto, s: Store, body: RegistrationInput, now: nat)
    requires Sound(c)
    requires Register(c, s, body).response.status == 201
    ensures var r := Register(c, s, body);
            var l := Login(c, r.store, LoginInput(body.email, body.password), now);
            && l.response.Json? && l.response.status == 200
            && l.response.body.LoggedIn?
            && l.response.body.token.claims.id == r.response.body.userId
  {
    assert Acceptable(body) && !HasEmail(s.rows, body.email.text);
    var hashed := c.hash(body.password.text);
    FindAfterCreate(s, body.name.text, body.email.text, hashed);
    assert c.compare(body.password.text, hashed);
  }

  /** A second registration with an email just registered is rejected, and the
      table stays as the first registration left it. */
  lemma RegisterTwiceRejected(c: Crypto, s: Store, first: RegistrationInput, second: RegistrationInput)
    requires Register(c, s, first).response.status == 201
    requires Acceptable(second) && second.email == first.email
    ensures var t := Register(c, s, first).store;
            Register(c, t, second) == Reply(Json(400, Failed(EmailInUse)), t, [FindUserByEmailCall(second.email)])
  {
    var t := Register(c, s, first).store;
    assert t.rows[|s.rows|].email == first.email.text;
    assert HasEmail(t.rows, second.email.text);
  }

  /** Ann's registration input passes the validator. */
  lemma AnnAcceptable()
    ensures Acceptable(RegistrationInput(Str("Ann"), Str("ann@x.com"), Str("secret1")))
  {
    assert "ann" + "@" + "x.com" == "ann@x.com";
    assert EmailPattern.InteriorDot("x.com") by {
      assert "x.com"[1] == '.';
    }
    EmailPattern.JoinMatches("ann", "x.com");
  }

  /** The walk-through: registering Ann on an empty table answers 201 with id
      1; logging in with her password then succeeds and with another password
      fails with 401. */
  lemma AnnWalkthrough(c: Crypto, now: nat)
    requires Exact(c)
    ensures var ann := RegistrationInput(Str("Ann"), Str("ann@x.com"), Str("secret1"));
            var r := Register(c, Empty, ann);
            && r.response == Json(201, Registered(UserRegistered, 1))
            && Login(c, r.store, LoginInput(Str("ann@x.com"), Str("secret1")), now).response
                 == Json(200, LoggedIn(LoginSuccessful, Sign(c, 1, now)))
            && Login(c, r.store, LoginInput(Str("ann@x.com"), Str("wrong1")), now).response
                 == Json(401, Failed(InvalidCredentials))
  {
    var ann := RegistrationInput(Str("Ann"), Str("ann@x.com"), Str("secret1"));
    AnnAcceptable();
    RegisterSucceeds(c, Empty, ann);
    var hashed := c.hash("secret1");
    var t := Register(c, Empty, ann).store;
    FindAfterCreate(Empty, "Ann", "ann@x.com", hashed);
    var user := User(1, "Ann", "ann@x.com", hashed);
    assert FindUserByEmail(t, Str("ann@x.com")) == Some(user);
    assert c.compare("secret1", hashed);
    assert !c.compare("wrong1", hashed);
    LoginSucceeds(c, t, LoginInput(Str("ann@x.com"), Str("secret1")), now, user);
    LoginWrongPassword(c, t, LoginInput(Str("ann@x.com"), Str("wrong1")), now, user);
  }
}
