# Registration and login of a small user service, in Dafny

This project models the request-handling core of a small Express service that
registers users and issues them tokens. The core has two parts:

- **The registration input validator.** `validateInput` takes the
  `{ name, email, password }` record and returns `null` or one of three fixed
  messages. It runs three checks in order, and the first one that fails
  decides the message:
  1. every field is present and non-empty (JavaScript truthiness);
  2. the password has at least 6 characters;
  3. the email matches `^[^@\s]+@[^@\s]+\.[^@\s]+$`.
- **The `register` and `login` handlers.**
  - `register` validates the input and rejects an email that is already
    stored. Otherwise it hashes the password, inserts the user and answers
    201 with the new id.
  - `login` looks the email up and compares the password with the stored
    hash. On a match it signs a token that holds the user's id and expires
    one hour after it was issued.

Modules, leaf first:

- `JsValues` (`js_values.dfy`) holds three pieces of JavaScript semantics:
  - a request-body field (`Absent`, standing for `undefined` or `null`, or
    `Str`);
  - the truthiness of a field;
  - the character class `\s`.
- `EmailPattern` (`email_pattern.dfy`) has three parts:
  - `Matches`: the email regular expression, written as the three-way split a
    backtracking matcher looks for.
  - Two definitions proved equivalent to `Matches`. One is a local part and a
    domain joined by `@`. The other is the scan shape: exactly one `@`, not
    at the start, no whitespace, and a `.` strictly inside the domain.
  - `Scan`: a one-pass matcher proved equal to `Matches`.
- `Validation` (`validation.dfy`) holds the validator and its ordering
  properties.
- `UserStore` (`user_store.dfy`) models the users table that the two SQL
  queries see.
  - The table is a sequence of rows in insertion order, plus the next
    AUTO_INCREMENT id.
  - A lookup returns the first matching row, as `rows[0]` does.
  - `Valid` is the table invariant: emails are unique, and ids are positive,
    increasing and below the next id.
- `AuthController` (`auth_controller.dfy`) holds the two handlers. Each is a
  pure function from the table and the request body to a `Reply`, which has
  three parts:
  - the response: a status and a JSON body, or `Next` for `next(err)`;
  - the table afterwards;
  - the calls made on the store, on bcrypt and on the token library, in
    order.

  The call list is what states which steps a failure skips.

The foreign code is passed in as function values, in a `Crypto` record:
- bcrypt's `hash` and `compare`;
- the token library's MAC under the process secret.

The model knows nothing about these functions. A lemma that needs to know
something about them says so in its `requires`:
- `Sound`: `compare` accepts a plaintext against its own hash.
- `Exact`: `compare` accepts exactly that plaintext.

The clock is the `now` parameter of `Login`, in seconds.

Facts about the code that shape the model:
- The token's payload is `{ id: user.id }` (controllers/authController.js:34),
  so the claim is named `id`. `iat` and `exp` are added by the token library,
  and `exp` is `iat + 3600`.
- When the email is found but the password is absent, `bcrypt.compare` is
  still called and rejects, and the handler calls `next(err)`
  (controllers/authController.js:31,36-37). The model records that compare
  call and answers `Next`.
- A successful login answers with `res.json`, so the status is the default
  200.

## Model

| member | source | states |
|---|---|---|
| `EmailPattern.MatchesIffScanShape` | utils/validateInput.js:8 | The email regex holds exactly when the string has no whitespace, has exactly one `@` and not at index 0, and has a `.` strictly inside the part after the `@`. |
| `EmailPattern.MatchesIffSplit` | utils/validateInput.js:8 | The email regex holds exactly when the string is `L + "@" + D`. `L` is non-empty, neither part has `@` or whitespace, and `D` has a `.` that is neither its first nor its last character. |
| `EmailPattern.JoinMatches` | utils/validateInput.js:8 | Joining any such local part and domain with `@` gives an email the regex accepts. |
| `EmailPattern.AcceptedShape` | utils/validateInput.js:8 | Any string the regex accepts has no whitespace, holds `@` exactly once (multiset count), and has an interior `.` after the `@`. |
| `EmailPattern.Scan` | utils/validateInput.js:8 | A single left-to-right pass returns true exactly when the regex matches. |
| `Validation.ValidateInput` | utils/validateInput.js:1-12 | Each message comes back exactly when its check is the first to fail. "All fields are required." comes back iff some field is absent or empty. The length message comes back iff all fields are present and the password is shorter than 6. The email message comes back iff the first two checks pass and the regex fails. `null` comes back iff all three pass. No other value is returned. |
| `Validation.MissingFieldWins` | utils/validateInput.js:2-4 | Any two inputs that each miss a field get "All fields are required.", whatever their other fields hold. |
| `Validation.LengthBeforeEmail` | utils/validateInput.js:5-10 | For every input with all fields present, a password shorter than 6 and an email the regex rejects, the result is the length message: the length check comes first. |
| `Validation.LengthBeforeEmailExample` | utils/validateInput.js:5-10 | An instance of that ordering: "abc" with "not an email" gives the length message, and that email is indeed rejected by the regex. |
| `Validation.SixCharactersSuffice` | utils/validateInput.js:5-7 | A password of exactly 6 characters never draws the length message, whatever the name and email fields hold. |
| `Validation.AcceptedEmailShape` | utils/validateInput.js:8-11 | When the validator returns `null`, the email has exactly one `@` and no whitespace, and the part after the `@` has an interior `.`. |
| `UserStore.IndexOfEmail` | models/user.js:3-6 | Returns the position of the first row with the email, all earlier rows differing. Returns nothing exactly when no row has it. |
| `UserStore.FindUserByEmail` | models/user.js:3-6 | The lookup returns a stored row carrying the given email. It returns nothing exactly when the email is absent (SQL NULL) or no row has it. |
| `UserStore.CreateUser` | models/user.js:8-11 | The insert appends exactly one row with the given name, email and hash, keeps every earlier row, and returns the new row's id. In a valid table that id is above every existing id. |
| `UserStore.FindInValidStore` | models/user.js:3-6 | In a table with unique emails, looking up a row's email returns that very row. |
| `UserStore.CreateUserPreservesValid` | models/user.js:8-11 | Inserting an email not yet stored keeps emails unique and ids increasing and fresh. |
| `UserStore.FindAfterCreate` | models/user.js:3-11 | After inserting a new email, looking it up returns exactly the inserted row. |
| `AuthController.Register` | controllers/authController.js:7-22 | Register answers only 201 or 400. On 400 the table is unchanged and the body is an error. On 201 the table gains exactly one row at the end, under the id in the answer, and keeps all earlier rows. Register never compares a password or signs a token. |
| `AuthController.Login` | controllers/authController.js:25-39 | Login never changes the table, answers only 200, 401 or 404 when it answers in JSON, and never hashes a password or inserts a row. |
| `AuthController.RegisterRejectsInvalid` | controllers/authController.js:9-11 | Invalid input gives 400 with exactly the validator's message. The call list is empty, so there is no lookup, and the table is unchanged. |
| `AuthController.RegisterRejectsDuplicate` | controllers/authController.js:13-14 | A stored email gives 400 "Email already in use.". The lookup is the only call, so there is no hash and no insert, and the table is unchanged. |
| `AuthController.RegisterSucceeds` | controllers/authController.js:16-18 | A valid, unstored email gives 201 with the new id. The table becomes the old rows plus the row `{id, name, email, hash(password)}`. The calls are lookup, hash, insert, and the id is fresh in a valid table. |
| `AuthController.RegisterPreservesValid` | controllers/authController.js:13-17 | Register keeps the table invariant, in particular that no two users share an email. |
| `AuthController.LoginUnknownEmail` | controllers/authController.js:27-29 | An absent or unstored email gives 404 "User not found.". The lookup is the only call, so `compare` is never called. |
| `AuthController.LoginWrongPassword` | controllers/authController.js:31-32 | When `compare` rejects the password of a found user, login gives 401 "Invalid credentials." and signs no token. |
| `AuthController.LoginAbsentPassword` | controllers/authController.js:31-37 | A found user with an absent password: the lookup and then `compare` (with no plaintext) are called, the handler answers `next(err)`, no token is signed and the table is unchanged. |
| `AuthController.Sign` | controllers/authController.js:34 | The signed token carries the given id, was issued at `now`, and expires exactly 3600 seconds (one hour) after it was issued. |
| `AuthController.LoginSucceeds` | controllers/authController.js:34-35 | When `compare` accepts, login gives 200 "Login successful.". The token is for the user's id, was issued at `now`, and expires exactly 3600 seconds after issue. |
| `AuthController.RegisterThenLogin` | controllers/authController.js:7-35 | After a 201 registration, logging in with the same email and password succeeds, with a token for the id the registration returned. This holds when `compare` accepts a plaintext against its own hash. |
| `AuthController.RegisterTwiceRejected` | controllers/authController.js:13-18 | Once an email is registered, a second valid registration with it gets 400 "Email already in use." and leaves the table as it was. |
| `AuthController.AnnWalkthrough` | controllers/authController.js:7-35 | The walk-through, with an exact `compare`. Registering Ann on an empty table gives 201 with id 1. Logging in with "secret1" gives 200 with her token. Logging in with "wrong1" gives 401. |

## Left out

- Fields of the request body that are not strings (numbers, booleans,
  objects). A field is either absent or a string, so JavaScript truthiness
  reduces to "present and non-empty".
- String length is taken as the number of Unicode scalar values. JavaScript's
  `.length` counts UTF-16 code units, so a password with characters outside
  the Basic Multilingual Plane is counted differently.
- `\s` is modelled as a fixed set of code points: space, tab, LF, VT, FF, CR,
  U+00A0, U+1680, U+2000 to U+200A, U+2028, U+2029, U+202F, U+205F, U+3000
  and U+FEFF.
- The SQL queries over the MySQL pool are modelled only as the two table
  operations, with exact string equality.
  - MySQL's collation-dependent comparison of `email = ?` (case and trailing
    spaces) is not modelled.
  - The store's unique constraint on the email column is not modelled.
- bcrypt (salt generation, cost factor 10, constant-time comparison) is
  modelled only as the opaque `hash` and `compare` functions. A fresh salt
  per call corresponds to passing a different `hash` function.
- The token library's encoding and HMAC signing are modelled only as the
  opaque `mac` of the claims, under a secret that is assumed present. A
  missing secret makes signing throw; that path is left out with the other
  library failures.
- `next(err)` and the error-handling middleware are left out. Store and
  library failures are runtime faults, so they are not modelled. The one
  throw the model does contain, `compare` on an absent login password, is
  recorded as a call and answers `Next`; what the middleware then sends is
  not modelled.
- Concurrency is left out: two simultaneous registrations with the same
  email can both pass the lookup before either inserts. The model is
  sequential, so each handler call sees the table the previous one left.
- Express bootstrapping, routing, `dotenv`, and reading the port and the
  secret from the environment are left out.
