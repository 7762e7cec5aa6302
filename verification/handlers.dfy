/** The decision logic of the two endpoints, `POST /signup` and `POST /login`,
    over an immutable user store.

    The password hashing library is a parameter: a `Hasher` carries a salted
    `hash` and the matching `compare`, and `Sound` is the one property the
    endpoints rely on, that a password verifies against any salted hash of itself.
    Every await point that can throw (the lookup, the hashing, the insert, the
    comparison) is named by a `Fault`; a thrown error becomes a 500 response and
    the store is left as it was.
 */
module Handlers {
  import opened EmailValidator
  import opened UserStore

  type Salt = string

  datatype Hasher = Hasher(hash: (string, Salt) -> string, compare: (string, string) -> bool)

  /** A password verifies against every salted hash of itself. */
  ghost predicate Sound(h: Hasher) {
    forall pw, salt :: h.compare(pw, h.hash(pw, salt))
  }

  /** The step of a request at which the store or the hashing library throws, if any. */
  datatype Fault = NoFault | FindThrows | HashThrows | InsertThrows | CompareThrows

  datatype Body = Text(text: string) | LoginJson(message: string, userId: UserId)

  datatype Response = Response(status: int, body: Body)

  datatype SignupRequest = SignupRequest(firstname: string, lastname: string, email: string, password: string)

  datatype LoginRequest = LoginRequest(email: string, password: string)

  datatype SignupOutcome = SignupOutcome(response: Response, store: Store)

  const InvalidEmailFormat := Response(400, Text("Invalid email format"))
  const EmailAlreadyExists := Response(409, Text("Email already exists"))
  const SignupSuccessful := Response(200, Text("Signup Successful"))
  const ErrorInsertingRecord := Response(500, Text("Error inserting record"))

  const CredentialsRequired := Response(400, Text("Email and password are required."))
  const InvalidCredentials := Response(401, Text("Invalid email or password"))
  const InternalServerError := Response(500, Text("Internal server error"))

  function LoginSuccessful(id: UserId): Response {
    Response(200, LoginJson("Login Successful", id))
  }

  /** The record a successful signup inserts. */
  function NewUser(store: Store, h: Hasher, req: SignupRequest, salt: Salt): User {
    User(FreshId(store), req.firstname, req.lastname, req.email, h.hash(req.password, salt))
  }

  /** `POST /signup`: format check, then duplicate check, then hash and insert. */
  function Signup(store: Store, h: Hasher, req: SignupRequest, salt: Salt, fault: Fault): (out: SignupOutcome)
    // The format check comes first: nothing else is consulted for a malformed email.
    ensures !MatchesEmailRegex(req.email) ==> out == SignupOutcome(InvalidEmailFormat, store)
    // A present email is refused whatever the password, unless the lookup throws.
    ensures (MatchesEmailRegex(req.email) && fault != FindThrows && HasEmail(store, req.email)) ==>
              out == SignupOutcome(EmailAlreadyExists, store)
    ensures MatchesEmailRegex(req.email) ==> out.response != InvalidEmailFormat
    // A throwing lookup, hash or insert is answered with 500.
    ensures (MatchesEmailRegex(req.email) && fault == FindThrows) ==>
              out == SignupOutcome(ErrorInsertingRecord, store)
    ensures (MatchesEmailRegex(req.email) && !HasEmail(store, req.email) && fault in {HashThrows, InsertThrows}) ==>
              out == SignupOutcome(ErrorInsertingRecord, store)
    ensures out.response == SignupSuccessful <==>
              && MatchesEmailRegex(req.email)
              && !HasEmail(store, req.email)
              && fault !in {FindThrows, HashThrows, InsertThrows}
    // Every refusal leaves the store as it was.
    ensures out.response != SignupSuccessful ==>
              && out.response in {InvalidEmailFormat, EmailAlreadyExists, ErrorInsertingRecord}
              && out.store == store
    // Success appends exactly one record, carrying the hash and a fresh identifier.
    ensures out.response == SignupSuccessful ==>
              && |out.store| == |store| + 1
              && out.store[..|store|] == store
              && out.store[|store|].firstname == req.firstname
              && out.store[|store|].lastname == req.lastname
              && out.store[|store|].email == req.email
              && out.store[|store|].password == h.hash(req.password, salt)
              && (forall i :: 0 <= i < |store| ==> store[i].id != out.store[|store|].id)
  {
    ValidateEmailIffRegex(req.email);
    if !ValidateEmail(req.email) then SignupOutcome(InvalidEmailFormat, store)
    else if fault == FindThrows then SignupOutcome(ErrorInsertingRecord, store)
    else if FindByEmail(store, req.email).Some? then SignupOutcome(EmailAlreadyExists, store)
    else if fault == HashThrows || fault == InsertThrows then SignupOutcome(ErrorInsertingRecord, store)
    else SignupOutcome(SignupSuccessful, store + [NewUser(store, h, req, salt)])
  }

  /** `POST /login`: presence check, lookup, then comparison against the stored hash. */
  function Login(store: Store, h: Hasher, req: LoginRequest, fault: Fault): (r: Response)
    // Missing credentials are refused before the store is read.
    ensures req.email == "" || req.password == "" ==> r == CredentialsRequired
    ensures (req.email != "" && req.password != "" && fault != FindThrows && !HasEmail(store, req.email)) ==>
              r == InvalidCredentials
    // A throwing lookup or comparison is answered with 500.
    ensures (req.email != "" && req.password != "" && fault == FindThrows) ==> r == InternalServerError
    ensures (req.email != "" && req.password != "" && HasEmail(store, req.email) && fault == CompareThrows) ==>
              r == InternalServerError
    ensures r.status != 200 ==> r in {CredentialsRequired, InvalidCredentials, InternalServerError}
    // Success names a record with that email whose stored hash the password verifies against.
    ensures r.status == 200 ==>
              && r.body.LoginJson?
              && r == LoginSuccessful(r.body.userId)
              && exists i :: 0 <= i < |store| && store[i].email == req.email && store[i].id == r.body.userId
                               && h.compare(req.password, store[i].password)
  {
    if req.email == "" || req.password == "" then CredentialsRequired
    else if fault == FindThrows then InternalServerError
    else
      match FindByEmail(store, req.email)
      case None => InvalidCredentials
      case Some(i) =>
        if fault == CompareThrows then InternalServerError
        else if h.compare(req.password, store[i].password) then LoginSuccessful(store[i].id)
        else InvalidCredentials
  }
}
