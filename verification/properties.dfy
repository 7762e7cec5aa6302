/** Properties that relate several requests: the invariants every sequence of
    signups keeps, the round trip from signup to login, and the two login
    refusals that draw the same response.
 */
module HandlerProperties {
  import opened EmailValidator
  import opened UserStore
  import opened Handlers

  /** Every stored password is a salted hash of some password: plaintext never reaches the store. */
  ghost predicate OnlyHashesStored(store: Store, h: Hasher) {
    forall i :: 0 <= i < |store| ==> exists pw, salt :: store[i].password == h.hash(pw, salt)
  }

  /** Every stored email passed the format check. */
  ghost predicate OnlyValidEmails(store: Store) {
    forall i :: 0 <= i < |store| ==> MatchesEmailRegex(store[i].email)
  }

  /** What every store built by signups alone satisfies. */
  ghost predicate WellFormed(store: Store, h: Hasher) {
    && UniqueEmails(store)
    && UniqueIds(store)
    && OnlyHashesStored(store, h)
    && OnlyValidEmails(store)
  }

  /** Whatever its outcome, a signup keeps every email in the store unique. */
  lemma SignupPreservesUniqueEmails(store: Store, h: Hasher, req: SignupRequest, salt: Salt, fault: Fault)
    requires UniqueEmails(store)
    ensures UniqueEmails(Signup(store, h, req, salt, fault).store)
  {
  }

  /** Whatever its outcome, a signup keeps every identifier in the store unique. */
  lemma SignupPreservesUniqueIds(store: Store, h: Hasher, req: SignupRequest, salt: Salt, fault: Fault)
    requires UniqueIds(store)
    ensures UniqueIds(Signup(store, h, req, salt, fault).store)
  {
  }

  /** Whatever its outcome, a signup stores no plaintext password and no malformed email. */
  lemma SignupStoresOnlyHashesAndValidEmails(store: Store, h: Hasher, req: SignupRequest, salt: Salt, fault: Fault)
    requires OnlyHashesStored(store, h) && OnlyValidEmails(store)
    ensures OnlyHashesStored(Signup(store, h, req, salt, fault).store, h)
    ensures OnlyValidEmails(Signup(store, h, req, salt, fault).store)
  {
  }

  /** A signup, whatever its outcome, keeps all four store invariants. */
  lemma SignupPreservesWellFormed(store: Store, h: Hasher, req: SignupRequest, salt: Salt, fault: Fault)
    requires WellFormed(store, h)
    ensures WellFormed(Signup(store, h, req, salt, fault).store, h)
  {
  }

  /** One signup request together with the salt the hashing library drew and the fault, if any. */
  datatype SignupAttempt = SignupAttempt(req: SignupRequest, salt: Salt, fault: Fault)

  /** The store after serving the given signups one after another. */
  function SignupAll(store: Store, h: Hasher, attempts: seq<SignupAttempt>): Store
    decreases |attempts|
  {
    if |attempts| == 0 then store
    else
      var a := attempts[0];
      SignupAll(Signup(store, h, a.req, a.salt, a.fault).store, h, attempts[1..])
  }

  /** By induction on the attempts: serving them in order keeps the invariants. */
  lemma {:induction false} SignupAllPreservesWellFormed(store: Store, h: Hasher, attempts: seq<SignupAttempt>)
    requires WellFormed(store, h)
    ensures WellFormed(SignupAll(store, h, attempts), h)
    decreases |attempts|
  {
    if |attempts| > 0 {
      var a := attempts[0];
      SignupPreservesWellFormed(store, h, a.req, a.salt, a.fault);
      SignupAllPreservesWellFormed(Signup(store, h, a.req, a.salt, a.fault).store, h, attempts[1..]);
    }
  }

  /** Starting from an empty collection, any sequence of signups, successful or
      not, leaves at most one record per email, distinct identifiers, hashed
      passwords only and well-formed emails only. */
  lemma EveryReachableStoreIsWellFormed(h: Hasher, attempts: seq<SignupAttempt>)
    ensures WellFormed(SignupAll([], h, attempts), h)
  {
    SignupAllPreservesWellFormed([], h, attempts);
  }

  /** With unique emails, login succeeds exactly when the credentials are present,
      nothing throws, and some record with that email holds a hash the password
      verifies against. */
  lemma LoginSucceedsIffVerifiedRecord(store: Store, h: Hasher, req: LoginRequest, fault: Fault)
    requires UniqueEmails(store)
    ensures Login(store, h, req, fault).status == 200 <==>
              && req.email != ""
              && req.password != ""
              && fault !in {FindThrows, CompareThrows}
              && exists i :: 0 <= i < |store| && store[i].email == req.email && h.compare(req.password, store[i].password)
  {
  }

  /** An unknown email and a wrong password for a known one draw the very same
      login response, so login's response does not reveal whether the email has
      an account. */
  lemma UnknownEmailAndWrongPasswordLookAlike(unknown: Store, known: Store, h: Hasher, req: LoginRequest, i: nat, fault: Fault)
    requires req.email != "" && req.password != ""
    requires fault !in {FindThrows, CompareThrows}
    requires !HasEmail(unknown, req.email)
    requires UniqueEmails(known) && i < |known| && known[i].email == req.email
    requires !h.compare(req.password, known[i].password)
    ensures Login(unknown, h, req, fault) == InvalidCredentials
    ensures Login(known, h, req, fault) == InvalidCredentials
  {
  }

  /** The record a successful signup appends is the one a lookup of its email finds. */
  lemma FindsNewRecord(store: Store, h: Hasher, req: SignupRequest, salt: Salt, fault: Fault)
    requires Signup(store, h, req, salt, fault).response == SignupSuccessful
    ensures FindByEmail(Signup(store, h, req, salt, fault).store, req.email) == Some(|store|)
  {
  }

  /** A signup never changes how a login for an email already in the store is
      answered: records are only ever appended, never altered. */
  lemma LoginUnaffectedByLaterSignup(store: Store, h: Hasher, login: LoginRequest, loginFault: Fault,
                                     req: SignupRequest, salt: Salt, fault: Fault)
    requires HasEmail(store, login.email)
    ensures Login(Signup(store, h, req, salt, fault).store, h, login, loginFault) == Login(store, h, login, loginFault)
  {
  }

  /** Round trip: after a successful signup, logging in with the same email and
      a non-empty password succeeds and returns the new record's identifier. */
  lemma LoginAfterSignup(store: Store, h: Hasher, req: SignupRequest, salt: Salt, fault: Fault)
    requires Sound(h)
    requires Signup(store, h, req, salt, fault).response == SignupSuccessful
    requires req.password != ""
    ensures var after := Signup(store, h, req, salt, fault).store;
      Login(after, h, LoginRequest(req.email, req.password), NoFault) == LoginSuccessful(after[|store|].id)
  {
  }

  /** Signup does not check the password, but login refuses an empty one, so an
      account created with an empty password can never log in with the password
      it was created with. */
  lemma EmptyPasswordAccountCannotLogIn(store: Store, h: Hasher, req: SignupRequest, salt: Salt, fault: Fault, loginFault: Fault)
    requires req.password == ""
    ensures Signup(store, h, req, salt, fault).response == SignupSuccessful <==>
              MatchesEmailRegex(req.email) && !HasEmail(store, req.email) && fault !in {FindThrows, HashThrows, InsertThrows}
    ensures Login(Signup(store, h, req, salt, fault).store, h, LoginRequest(req.email, req.password), loginFault)
              == CredentialsRequired
  {
  }

  /** A whole session: a new, well-formed email signs up; logging in with its
      password succeeds, logging in with a password that does not verify against
      the stored hash is refused as if the email were unknown, and a second signup of the same email is refused
      whatever its names and password. */
  lemma SignupLoginSession(h: Hasher, store: Store, req: SignupRequest, salt: Salt,
                           wrong: string, again: SignupRequest, salt2: Salt)
    requires Sound(h)
    requires !h.compare(wrong, h.hash(req.password, salt))
    requires MatchesEmailRegex(req.email) && !HasEmail(store, req.email)
    requires req.password != "" && wrong != ""
    requires again.email == req.email
    ensures var first := Signup(store, h, req, salt, NoFault);
      && first.response == SignupSuccessful
      && Login(first.store, h, LoginRequest(req.email, req.password), NoFault) == LoginSuccessful(first.store[|store|].id)
      && Login(first.store, h, LoginRequest(req.email, wrong), NoFault) == InvalidCredentials
      && Signup(first.store, h, again, salt2, NoFault) == SignupOutcome(EmailAlreadyExists, first.store)
  {
  }
}
