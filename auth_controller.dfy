/**
 * The request handlers of the authentication controller: signup, login,
 * logout and onboarding. Each handler is a method over the user store and the
 * chat provider's directory that returns the HTTP reply it sends: status,
 * JSON payload and what it does to the session cookie. Each is proved against
 * a ghost function that gives the reply and the new store contents from the
 * old contents and the request.
 */
module AuthController {
  import opened Values
  import opened Users
  import EmailFormat
  import RequiredFields
  import Stream

  const MinPasswordLength := 6
  /** The session cookie's lifetime, seven days in milliseconds. */
  const SessionMaxAgeMs: nat := 7 * 24 * 60 * 60 * 1000
  /** The avatar endpoint; the random seed is appended to it. */
  const AvatarPrefix := "https://api.dicebear.com/7.x/adventurer/png?seed="

  const AllFieldsRequired := "All the fields are required"
  const PasswordTooShort := "Atleast 6 characters are required"
  const InvalidEmailFormat := "Invalid email format"
  const EmailExists := "This email already exists"
  const CredentialsRequired := "Valid email & password is required"
  const InvalidCredentials := "Invalid email or password"
  const LoggedOut := "Logged out successfully"
  const UserNotFound := "User not found"
  const SignupServerError := "Internal Server Error"
  const OnboardServerError := "Internal Server error"

  datatype SignupRequest = SignupRequest(fullName: Option<string>, email: Option<string>, password: Option<string>)
  datatype LoginRequest = LoginRequest(email: Option<string>, password: Option<string>)

  /** The JSON body of a reply. */
  datatype Payload =
    | Failure(message: string)                                 // { message }
    | Incomplete(message: string, missingFields: seq<string>)  // { message, missingFields }
    | UserSent(id: Id, user: User)                             // { success: true, user }
    | Confirmed(message: string)                               // { success: true, message }

  /** What a reply does to the `jwt` cookie: set it to a token for a user, clear it, or leave it. */
  datatype Session = SetSession(userId: Id, maxAgeMs: nat) | ClearSession | Untouched

  datatype Response = Response(status: int, payload: Payload, session: Session)

  /** The user whose session cookie the client holds after a reply with cookie action `s`. */
  function CookieAfter(prior: Option<Id>, s: Session): Option<Id>
  {
    match s
    case SetSession(id, _) => Some(id)
    case ClearSession => None
    case Untouched => prior
  }

  /** A reply together with the store contents after the request. */
  datatype Outcome = Outcome(response: Response, users: map<Id, User>)

  function Reject(status: int, message: string): Response
  {
    Response(status, Failure(message), Untouched)
  }

  predicate SignupFieldsPresent(req: SignupRequest)
  {
    Truthy(req.email) && Truthy(req.password) && Truthy(req.fullName)
  }

  /**
   * The signup validation: the first of the four checks that fails decides
   * the message, in the order fields present, password length, email format,
   * email not yet stored; None when all four pass.
   */
  function SignupError(req: SignupRequest, users: map<Id, User>): (r: Option<string>)
    ensures r == Some(AllFieldsRequired) <==> !SignupFieldsPresent(req)
    ensures r == Some(PasswordTooShort) <==>
      SignupFieldsPresent(req) && |req.password.value| < MinPasswordLength
    ensures r == Some(InvalidEmailFormat) <==>
      && SignupFieldsPresent(req) && |req.password.value| >= MinPasswordLength
      && !EmailFormat.IsValidEmail(req.email.value)
    ensures r == Some(EmailExists) <==>
      && SignupFieldsPresent(req) && |req.password.value| >= MinPasswordLength
      && EmailFormat.IsValidEmail(req.email.value) && EmailTaken(users, req.email.value)
    ensures r == None <==>
      && SignupFieldsPresent(req) && |req.password.value| >= MinPasswordLength
      && EmailFormat.IsValidEmail(req.email.value) && !EmailTaken(users, req.email.value)
  {
    if !SignupFieldsPresent(req) then Some(AllFieldsRequired)
    else if |req.password.value| < MinPasswordLength then Some(PasswordTooShort)
    else if !EmailFormat.IsValidEmail(req.email.value) then Some(InvalidEmailFormat)
    else if EmailTaken(users, req.email.value) then Some(EmailExists)
    else None
  }

  /** The record signup asks the store to create, with the avatar built from `seed`. */
  function SignupRecord(req: SignupRequest, seed: string, hash: string -> string): User
    requires SignupFieldsPresent(req)
  {
    NewRecord(hash, req.email.value, req.password.value, req.fullName.value, AvatarPrefix + seed)
  }

  /** What signup replies and stores; a failed create maps to the handler's 500 reply. */
  ghost function SignupOutcome(users: map<Id, User>, nextId: Id, req: SignupRequest,
                               seed: string, hash: string -> string): Outcome
    requires IdsBelow(users, nextId)
  {
    match SignupError(req, users)
    case Some(message) => Outcome(Reject(400, message), users)
    case None =>
      var (created, after) := Insert(users, nextId, SignupRecord(req, seed, hash));
      match created
      case None => Outcome(Reject(500, SignupServerError), after)
      case Some(id) => Outcome(Response(201, UserSent(id, after[id]), SetSession(id, SessionMaxAgeMs)), after)
  }

  /** What login replies; it never changes the store. */
  ghost function LoginOutcome(users: map<Id, User>, req: LoginRequest,
                              matches: (User, string) -> bool): Response
  {
    if !Truthy(req.email) || !Truthy(req.password) then Reject(400, CredentialsRequired)
    else
      match OwnerOf(users, req.email.value)
      case None => Reject(401, InvalidCredentials)
      case Some(id) =>
        if !matches(users[id], req.password.value) then Reject(401, InvalidCredentials)
        else Response(200, UserSent(id, users[id]), SetSession(id, SessionMaxAgeMs))
  }

  /** `{ ...req.body, isOnboarded: true }`: the flag written after the body's keys wins. */
  function OnboardingUpdate(body: Fields): (f: Fields)
    ensures f.isOnboarded == Some(true)
    ensures f.(isOnboarded := body.isOnboarded) == body
  {
    body.(isOnboarded := Some(true))
  }

  /** What onboarding replies and stores for the authenticated user `userId`. */
  ghost function OnboardOutcome(users: map<Id, User>, userId: Id, body: Fields): Outcome
  {
    if !RequiredFields.AllPresent(body) then
      Outcome(Response(401, Incomplete(AllFieldsRequired, RequiredFields.MissingFields(body)), Untouched), users)
    else
      var (result, after) := Revise(users, userId, OnboardingUpdate(body));
      match result
      case NotFound => Outcome(Reject(401, UserNotFound), after)
      case Conflict => Outcome(Reject(500, OnboardServerError), after)
      case Updated(user) => Outcome(Response(200, UserSent(userId, user), Untouched), after)
  }

  /** The new or updated identity sent to the chat provider after a successful reply. */
  ghost function Synced(before: map<Id, Stream.Identity>, response: Response, reachable: bool): map<Id, Stream.Identity>
  {
    if reachable && response.payload.UserSent? then
      before[response.payload.id := Stream.Identity(response.payload.user.fullName, response.payload.user.profilePic)]
    else
      before
  }

  /**
   * POST /api/auth/signup. `seed` stands for the random avatar seed and
   * `reachable` for whether the provider call succeeds; the reply and the
   * store do not depend on `reachable`.
   */
  method Signup(store: UserStore, directory: Stream.Directory, req: SignupRequest,
                seed: string, reachable: bool) returns (response: Response)
    requires store.Valid()
    modifies store, directory
    ensures store.Valid()
    ensures Outcome(response, store.users) == SignupOutcome(old(store.users), old(store.nextId), req, seed, store.hash)
    ensures store.nextId == if response.status == 201 then old(store.nextId) + 1 else old(store.nextId)
    ensures directory.identities == Synced(old(directory.identities), response, reachable)
  {
    if !Truthy(req.email) || !Truthy(req.password) || !Truthy(req.fullName) {
      return Reject(400, AllFieldsRequired);
    }
    var email, password, fullName := req.email.value, req.password.value, req.fullName.value;
    if |password| < MinPasswordLength {
      return Reject(400, PasswordTooShort);
    }
    if !EmailFormat.IsValidEmail(email) {
      return Reject(400, InvalidEmailFormat);
    }
    var existing := store.FindByEmail(email);
    if existing.Some? {
      return Reject(400, EmailExists);
    }
    var avatar := AvatarPrefix + seed;
    var created := store.Create(email, password, fullName, avatar);
    match created
    case None =>
      response := Reject(500, SignupServerError);
    case Some(id) =>
      var user := store.users[id];
      // `profilePic || ""` is `profilePic` for every string.
      var synced := directory.Upsert(id, user.fullName, user.profilePic, reachable);
      response := Response(201, UserSent(id, user), SetSession(id, SessionMaxAgeMs));
  }

  /** POST /api/auth/login. It only reads the store. */
  method Login(store: UserStore, req: LoginRequest) returns (response: Response)
    requires store.Valid()
    ensures response == LoginOutcome(store.users, req, store.matches)
  {
    if !Truthy(req.email) || !Truthy(req.password) {
      return Reject(400, CredentialsRequired);
    }
    var found := store.FindByEmail(req.email.value);
    if found.None? {
      return Reject(401, InvalidCredentials);
    }
    var id := found.value;
    var user := store.users[id];
    if !store.matches(user, req.password.value) {
      return Reject(401, InvalidCredentials);
    }
    response := Response(200, UserSent(id, user), SetSession(id, SessionMaxAgeMs));
  }

  /** POST /api/auth/logout: clears the cookie and succeeds, whatever came before. */
  function Logout(): (r: Response)
    ensures r.status == 200 && r.session == ClearSession && r.payload == Confirmed(LoggedOut)
  {
    Response(200, Confirmed(LoggedOut), ClearSession)
  }

  /**
   * The onboarding endpoint for the user `userId` that the authentication
   * middleware put on the request. The reply and the store do not depend on
   * `reachable`.
   */
  method Onboard(store: UserStore, directory: Stream.Directory, userId: Id, body: Fields,
                 reachable: bool) returns (response: Response)
    requires store.Valid()
    modifies store`users, directory
    ensures store.Valid()
    ensures Outcome(response, store.users) == OnboardOutcome(old(store.users), userId, body)
    ensures directory.identities == Synced(old(directory.identities), response, reachable)
  {
    if !RequiredFields.AllPresent(body) {
      return Response(401, Incomplete(AllFieldsRequired, RequiredFields.MissingFields(body)), Untouched);
    }
    var result := store.UpdateById(userId, OnboardingUpdate(body));
    match result
    case NotFound =>
      response := Reject(401, UserNotFound);
    case Conflict =>
      response := Reject(500, OnboardServerError);
    case Updated(user) =>
      var synced := directory.Upsert(userId, user.fullName, user.profilePic, reachable);
      response := Response(200, UserSent(userId, user), Untouched);
  }
}
