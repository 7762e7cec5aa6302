# Glacier-Tide authentication backend in Dafny

A model of the credential logic of the Glacier-Tide Express server
(`backend/server.js`): the email format check used by signup, and the decision
logic of the `POST /signup` and `POST /login` handlers over a collection of user
documents.

- `email.dfy`, module `EmailValidator`: `validateEmail` and its regular
  expression `^[^\s@]+@[^\s@]+\.[^\s@]+$`. `MatchesEmailRegex` is the language
  of the expression, as a split `a + "@" + b + "." + c` into three non-empty runs
  of characters that are neither whitespace nor `'@'`. `ValidateEmail` is a direct
  characterisation. It requires no whitespace anywhere, a first `'@'` that is not
  the first character and is followed by no other `'@'`, and a `'.'` after the
  `'@'` that is neither the first nor the last character of that part. The two are
  proved equal. `\s` is the full ECMAScript set: tab, line feed, vertical tab,
  form feed, carriage return, space, U+00A0, U+1680, U+2000 to U+200A, U+2028,
  U+2029, U+202F, U+205F, U+3000 and U+FEFF.
- `store.dfy`, module `UserStore`: the `users` collection as an immutable
  `seq<User>` in insertion order. `FindByEmail` is `findOne({ email })`: it finds
  the first record whose email is equal. `FreshId` stands for the `_id` the
  database assigns on insert.
- `handlers.dfy`, module `Handlers`: `Signup` and `Login` as pure functions. They
  return the response (status and body) and, for signup, the new store. bcrypt is
  a `Hasher` parameter with a salted `hash` and a `compare`. The one property the
  handlers rely on is `Sound`: a password verifies against any salted hash of
  itself. The salt bcrypt draws is a parameter of `Signup`. Each step that can
  throw has a `Fault` value: the lookup, the hashing, the insert and the
  comparison. A thrown error yields the handler's 500 response and leaves the
  store unchanged.
- `properties.dfy`, module `HandlerProperties`: properties that span several
  requests. These are the invariants kept by any sequence of signups, the round
  trip from signup to login, and the fact that login answers an unknown email
  and a wrong password with the same response.

The checks run in the same order as in the source. Signup checks the email
format first, outside the `try`. So a malformed email gets 400 even when the
store would throw. Next comes the lookup, then the duplicate check (409), then
hashing and the insert. Login first rejects an empty email or password with 400,
before it reads anything. Then it does the lookup and returns 401 when no record
matches. Then it compares the password with the stored hash. Login returns no
store, so it cannot change one.

Signup does not check the password, while login rejects an empty one. An account
created with an empty password can therefore never log in with the password it
was created with (`EmptyPasswordAccountCannotLogIn`). For the same reason, the round-trip lemma
`LoginAfterSignup` requires a non-empty password.

## Model

| member | source | states |
|---|---|---|
| EmailValidator.ValidateEmailIffRegex | backend/server.js:32-35 | the validator accepts a string exactly when it splits as `a@b.c` with `a`, `b`, `c` non-empty and free of whitespace and `'@'` |
| EmailValidator.RegexImpliesValid | backend/server.js:32-35 | every `local@domain.tld` whose three parts are non-empty and free of whitespace and `'@'` is accepted, including parts that contain dots |
| EmailValidator.RejectsEmpty | backend/server.js:32-35 | the empty string does not match the pattern |
| EmailValidator.RejectsWithoutAt | backend/server.js:32-35 | a string with no `'@'` does not match |
| EmailValidator.RejectsTwoAts | backend/server.js:32-35 | a string with two `'@'` does not match |
| EmailValidator.RejectsWithoutInnerDot | backend/server.js:32-35 | a string does not match when no `'.'` stands after an `'@'` with at least one character between them and at least one after the dot |
| UserStore.FindByEmail | backend/server.js:46-47 | the lookup finds a record exactly when some record has the email; what it finds is the first such record |
| UserStore.FreshId | backend/server.js:61 | the identifier given to an inserted record differs from, and exceeds, every identifier already stored |
| UserStore.FindByEmailAfterAppend | backend/server.js:79 | appending records does not change which record a lookup of an email already present returns |
| Handlers.Signup | backend/server.js:38-68 | a malformed email gets 400 whatever the store or fault, and a well-formed one never does; a throwing lookup gets 500, as does a throwing hash or insert for an absent email; a present email gets 409 whatever the password unless the lookup throws; success happens exactly when the email is well formed, absent, and nothing throws; every refusal leaves the store unchanged; success appends exactly one record with the given names and email, the salted hash of the password, and a fresh id |
| Handlers.Login | backend/server.js:71-98 | an empty email or password gets 400; with both present, a throwing lookup gets 500, and so does a throwing comparison for a stored email; an email with no record gets 401 unless the lookup throws; any other failure is 401 or 500; a 200 names the id of a record with that email whose stored hash the password verifies against |
| HandlerProperties.SignupPreservesUniqueEmails | backend/server.js:46-61 | if every email in the store is unique before a signup, it is still unique after it, whatever the outcome |
| HandlerProperties.SignupPreservesUniqueIds | backend/server.js:61 | a signup keeps the record identifiers distinct |
| HandlerProperties.SignupStoresOnlyHashesAndValidEmails | backend/server.js:41-61 | after a signup every stored password is still a salted hash output rather than plaintext, and every stored email still matches the pattern |
| HandlerProperties.EveryReachableStoreIsWellFormed | backend/server.js:38-68 | any sequence of signups from an empty collection, with any outcomes, gives unique emails, unique ids, hashed passwords only and well-formed emails only |
| HandlerProperties.LoginSucceedsIffVerifiedRecord | backend/server.js:74-93 | with unique emails, login succeeds exactly when both fields are non-empty, nothing throws, and the record with that email holds a hash the password verifies against |
| HandlerProperties.UnknownEmailAndWrongPasswordLookAlike | backend/server.js:81-92 | login with an unknown email and login with a wrong password for a known email both give the same 401 response, "Invalid email or password" |
| HandlerProperties.FindsNewRecord | backend/server.js:46-61 | after a successful signup, a lookup of the new email finds the appended record |
| HandlerProperties.LoginUnaffectedByLaterSignup | backend/server.js:79-90 | a signup never changes the response to a login for an email that is already stored |
| HandlerProperties.LoginAfterSignup | backend/server.js:52-90 | for a sound hasher, after a successful signup with a non-empty password, login with the same email and password returns 200 and the new record's id |
| HandlerProperties.EmptyPasswordAccountCannotLogIn | backend/server.js:52-76 | a signup with an empty password succeeds under the usual conditions, yet login with those credentials always gets 400 |
| HandlerProperties.SignupLoginSession | backend/server.js:38-98 | for a new, well-formed email: signup gets 200, login with the password gets 200 and the new id, login with a password that does not verify against the stored hash gets 401, and a second signup of the email gets 409 whatever its names and password |

## Left out

- Express routing, body-parser, CORS, dotenv and `app.listen` (backend/server.js:1-19, 101-103). These are framework plumbing and do not affect the decisions the handlers make.
- The MongoDB connection and its event handlers (backend/server.js:21-29), and all console logging. These are I/O only.
- bcrypt internals, meaning the algorithm, salt generation and the cost factor 10. The hasher is a parameter. `Sound` is the only property assumed of it. `SignupLoginSession` also takes, for its one wrong password, the premise that it does not verify against the stored hash; bcrypt does not rule out all such collisions (it reads only the first 72 bytes of a password).
- The claim that two signups with the same password store different hashes. It depends on bcrypt drawing distinct salts, which is a property of the library and not of this code.
- MongoDB ObjectId generation. `FreshId` returns one more than the largest stored id. It stands for any fresh identifier.
- Exceptions from the store or bcrypt (backend/server.js:64-67, 94-97). The model does not say why they are thrown. A `Fault` parameter only names the step that throws.
- The race between `findOne` and `insertOne` when two signups for the same email run at the same time. Each request is modelled as one atomic, sequential step.
- JavaScript coercions: a missing body field (`undefined`), and `regex.test` turning a non-string into a string. All request fields are strings here. For login, the falsy check `!email` is therefore the same as the string being empty.
- UTF-16 code units. JavaScript runs the regular expression without the `u` flag, so it sees UTF-16 code units. The model works on Unicode scalar values. No surrogate code unit is in `\s` or equal to `'@'`, so both views accept the same strings.
- Hiding which emails have accounts beyond login's response. `UnknownEmailAndWrongPasswordLookAlike` shows only that the two login refusals are the same response. Signup still reveals it: it answers 409 "Email already exists" exactly for a well-formed email that has an account (backend/server.js:46-48). Login also skips the password comparison for an unknown email (backend/server.js:81-86), so the two refusals can differ in timing, which the model does not represent.
