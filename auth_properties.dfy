/** Properties of the controller's handlers, stated over their outcome functions. */
module AuthProperties {
  import opened Values
  import opened Users
  import EmailFormat
  import RequiredFields
  import opened AuthController

  /**
   * Signup answers 400 exactly when a check fails, 201 otherwise, and never
   * reaches the 500 reply: a request that passes the email check also gets
   * past `User.create`. A rejected request leaves the store as it was.
   */
  lemma SignupStatus(users: map<Id, User>, nextId: Id, req: SignupRequest, seed: string, hash: string -> string)
    requires IdsBelow(users, nextId)
    ensures var o := SignupOutcome(users, nextId, req, seed, hash);
      && (o.response.status == 400 <==> SignupError(req, users).Some?)
      && (o.response.status == 201 <==> SignupError(req, users) == None)
      && (SignupError(req, users).Some? ==>
            o == Outcome(Reject(400, SignupError(req, users).value), users))
  {
  }

  /**
   * A signup that passes the four checks adds exactly one record under a new
   * id, with the given email and full name, a dicebear avatar, the hashed
   * password and `isOnboarded` false, and replies 201 with that user and a
   * seven-day session cookie.
   */
  lemma SignupAddsOneRecord(users: map<Id, User>, nextId: Id, req: SignupRequest, seed: string, hash: string -> string)
    requires IdsBelow(users, nextId)
    requires SignupError(req, users) == None
    ensures var o := SignupOutcome(users, nextId, req, seed, hash);
      var u := SignupRecord(req, seed, hash);
      && nextId !in users
      && o.users == users[nextId := u]
      && |o.users| == |users| + 1
      && o.response == Response(201, UserSent(nextId, u), SetSession(nextId, SessionMaxAgeMs))
      && u.email == req.email.value && u.fullName == req.fullName.value
      && u.password == hash(req.password.value)
      && AvatarPrefix <= u.profilePic
      && !u.isOnboarded
  {
    var o := SignupOutcome(users, nextId, req, seed, hash);
    assert o.users.Keys == users.Keys + {nextId};
  }

  /** Signing up twice with the same email: the second attempt is refused with "This email already exists". */
  lemma SignupSameEmailTwice(users: map<Id, User>, nextId: Id, req: SignupRequest, seed: string, seed': string,
                             hash: string -> string)
    requires IdsBelow(users, nextId)
    requires SignupError(req, users) == None
    ensures var o := SignupOutcome(users, nextId, req, seed, hash);
      && IdsBelow(o.users, nextId + 1)
      && SignupOutcome(o.users, nextId + 1, req, seed', hash) == Outcome(Reject(400, EmailExists), o.users)
  {
    var o := SignupOutcome(users, nextId, req, seed, hash);
    assert o.users[nextId].email == req.email.value;
    assert EmailTaken(o.users, req.email.value);
  }

  /**
   * After a successful signup, logging in with the same email and a password
   * the credential check accepts returns that user with a session cookie.
   */
  lemma SignupThenLogin(users: map<Id, User>, nextId: Id, req: SignupRequest, seed: string,
                        hash: string -> string, matches: (User, string) -> bool)
    requires IdsBelow(users, nextId)
    requires SignupError(req, users) == None
    requires matches(SignupRecord(req, seed, hash), req.password.value)
    ensures var o := SignupOutcome(users, nextId, req, seed, hash);
      LoginOutcome(o.users, LoginRequest(req.email, req.password), matches)
        == Response(200, UserSent(nextId, SignupRecord(req, seed, hash)), SetSession(nextId, SessionMaxAgeMs))
  {
    var o := SignupOutcome(users, nextId, req, seed, hash);
    var email := req.email.value;
    assert o.users[nextId].email == email;
    assert !EmailTaken(users, email);
    forall id | id in o.users && o.users[id].email == email
      ensures id == nextId
    {
    }
  }

  /**
   * Login answers 400 when the email or password is falsy. An unknown email
   * and a wrong password get the same 401 reply, so the reply does not tell
   * them apart. Only correct credentials get 200 and set the cookie.
   */
  lemma LoginReplies(users: map<Id, User>, req: LoginRequest, matches: (User, string) -> bool)
    ensures var r := LoginOutcome(users, req, matches);
      && (!Truthy(req.email) || !Truthy(req.password) <==> r == Reject(400, CredentialsRequired))
      && ((Truthy(req.email) && Truthy(req.password) && OwnerOf(users, req.email.value).None?)
            ==> r == Reject(401, InvalidCredentials))
      && ((Truthy(req.email) && Truthy(req.password) && OwnerOf(users, req.email.value).Some?)
            ==> var id := OwnerOf(users, req.email.value).value;
                r == if matches(users[id], req.password.value)
                     then Response(200, UserSent(id, users[id]), SetSession(id, SessionMaxAgeMs))
                     else Reject(401, InvalidCredentials))
      && (r.session != Untouched <==> r.status == 200)
  {
  }

  /**
   * Whatever cookie the client held before, logout leaves it with none, and
   * logging out again changes nothing.
   */
  lemma LogoutIdempotent(prior: Option<Id>)
    ensures CookieAfter(prior, Logout().session) == None
    ensures CookieAfter(CookieAfter(prior, Logout().session), Logout().session)
              == CookieAfter(prior, Logout().session)
  {
  }

  /**
   * Onboarding with a falsy required field answers 401 with `missingFields`
   * naming exactly the falsy fields, in the order fullName, bio,
   * nativeLanguage, learningLanguage, location; the store is unchanged.
   */
  lemma OnboardIncomplete(users: map<Id, User>, userId: Id, body: Fields)
    requires !RequiredFields.AllPresent(body)
    ensures var o := OnboardOutcome(users, userId, body);
      && o.users == users
      && o.response.status == 401
      && o.response.payload.Incomplete?
      && o.response.payload.message == AllFieldsRequired
      && o.response.payload.missingFields != []
      && RequiredFields.IsSubsequence(o.response.payload.missingFields, RequiredFields.Required)
      && (forall name :: name in o.response.payload.missingFields <==>
            name in RequiredFields.Required && !Truthy(RequiredFields.FieldNamed(body, name)))
  {
    RequiredFields.MissingFieldsExact(body);
  }

  /**
   * With all five fields present: an id with no record answers 401 "User not
   * found" and a merged email another record holds answers 500; both leave
   * the store unchanged. Otherwise the record becomes the body merged over
   * it with `isOnboarded` true, whatever the body said about the flag; the
   * credential is the body's `password`, unhashed, when the body has one and
   * the stored one otherwise; and the reply is 200 with the new record.
   */
  lemma OnboardComplete(users: map<Id, User>, userId: Id, body: Fields)
    requires RequiredFields.AllPresent(body)
    ensures var o := OnboardOutcome(users, userId, body);
      && (userId !in users ==> o == Outcome(Reject(401, UserNotFound), users))
      && (userId in users ==>
            var merged := Apply(users[userId], OnboardingUpdate(body));
            && merged.isOnboarded
            && merged.password == Override(users[userId].password, body.password)
            && merged.fullName == body.fullName.value && merged.bio == body.bio.value
            && merged.nativeLanguage == body.nativeLanguage.value
            && merged.learningLanguage == body.learningLanguage.value
            && merged.location == body.location.value
            && (EmailTakenByOther(users, userId, merged.email) ==> o == Outcome(Reject(500, OnboardServerError), users))
            && (!EmailTakenByOther(users, userId, merged.email) ==>
                  o == Outcome(Response(200, UserSent(userId, merged), Untouched), users[userId := merged])))
  {
    assert OnboardingUpdate(body).password == body.password;
  }

  /** Repeating a successful onboarding request changes nothing more. */
  lemma OnboardRepeat(users: map<Id, User>, userId: Id, body: Fields)
    requires OnboardOutcome(users, userId, body).response.status == 200
    ensures var o := OnboardOutcome(users, userId, body);
      OnboardOutcome(o.users, userId, body) == o
  {
    var o := OnboardOutcome(users, userId, body);
    var merged := Apply(users[userId], OnboardingUpdate(body));
    assert o.users == users[userId := merged];
    assert Apply(merged, OnboardingUpdate(body)) == merged;
    assert o.users[userId := merged] == o.users;
    forall other | other in o.users && other != userId
      ensures o.users[other].email != merged.email
    {
      assert o.users[other] == users[other];
    }
  }

  /**
   * Onboarding with a body that has a `password` key stores that string as
   * the credential, unhashed, in place of the hash signup stored.
   */
  lemma OnboardStoresRawPassword(users: map<Id, User>, userId: Id, body: Fields)
    requires OnboardOutcome(users, userId, body).response.status == 200
    requires body.password.Some?
    ensures OnboardOutcome(users, userId, body).users[userId].password == body.password.value
  {
    assert OnboardingUpdate(body).password == body.password;
  }

  /**
   * Signup never sets `isOnboarded`: it changes no existing record and the
   * one it adds is not onboarded.
   */
  lemma SignupNeverOnboards(users: map<Id, User>, nextId: Id, req: SignupRequest, seed: string,
                            hash: string -> string)
    requires IdsBelow(users, nextId)
    ensures var s := SignupOutcome(users, nextId, req, seed, hash);
      && users.Keys <= s.users.Keys
      && (forall id :: id in users ==> s.users[id] == users[id])
      && (forall id :: id in s.users && id !in users ==> !s.users[id].isOnboarded)
  {
    var s := SignupOutcome(users, nextId, req, seed, hash);
    if SignupError(req, users) == None {
      assert s.users == users[nextId := SignupRecord(req, seed, hash)];
    }
  }

  /**
   * Onboarding never clears `isOnboarded`: it changes at most the caller's
   * record, and a record it changes is onboarded afterwards.
   */
  lemma OnboardedNeverReverts(users: map<Id, User>, userId: Id, body: Fields)
    ensures var o := OnboardOutcome(users, userId, body);
      && o.users.Keys == users.Keys
      && (forall id :: id in users && id != userId ==> o.users[id] == users[id])
      && (forall id :: id in users && users[id].isOnboarded ==> o.users[id].isOnboarded)
      && (userId in users && o.users[userId] != users[userId] ==> o.users[userId].isOnboarded)
  {
  }

  /** Both mutating handlers keep the store invariant: ids below the next id and unique emails. */
  lemma StoreInvariantKept(users: map<Id, User>, nextId: Id, req: SignupRequest, seed: string,
                           hash: string -> string, userId: Id, body: Fields)
    requires IdsBelow(users, nextId) && EmailsUnique(users)
    ensures var s := SignupOutcome(users, nextId, req, seed, hash);
      var next := if s.response.status == 201 then nextId + 1 else nextId;
      IdsBelow(s.users, next) && EmailsUnique(s.users)
    ensures var o := OnboardOutcome(users, userId, body);
      IdsBelow(o.users, nextId) && EmailsUnique(o.users)
  {
  }

  /** The address of the worked example passes the format check. */
  lemma AnaEmailValid()
    ensures EmailFormat.IsValidEmail("ana@test.com")
  {
    var email := "ana@test.com";
    forall k | 0 <= k < |email| ensures !EmailFormat.IsSpace(email[k]) {
    }
    assert email[3] == '@' && email[8] == '.';
    assert EmailFormat.OnlyAt(email, 3);
  }

  /**
   * Signup with Ana's details on an empty store answers 201 with a
   * non-onboarded user and a session cookie; the same signup again answers
   * "This email already exists"; a login with a password the check rejects
   * answers "Invalid email or password".
   */
  lemma AnaScenario(hash: string -> string, matches: (User, string) -> bool, seed: string)
    requires !matches(SignupRecord(SignupRequest(Some("Ana"), Some("ana@test.com"), Some("secret1")), seed, hash), "wrong")
    ensures var req := SignupRequest(Some("Ana"), Some("ana@test.com"), Some("secret1"));
      var o := SignupOutcome(map[], 0, req, seed, hash);
      && o.response.status == 201
      && o.response.payload.UserSent?
      && o.response.payload.user.email == "ana@test.com"
      && !o.response.payload.user.isOnboarded
      && o.response.session == SetSession(0, SessionMaxAgeMs)
      && SignupOutcome(o.users, 1, req, seed, hash).response == Reject(400, EmailExists)
      && LoginOutcome(o.users, LoginRequest(Some("ana@test.com"), Some("wrong")), matches) == Reject(401, InvalidCredentials)
  {
    AnaEmailValid();
    var req := SignupRequest(Some("Ana"), Some("ana@test.com"), Some("secret1"));
    SignupAddsOneRecord(map[], 0, req, seed, hash);
    SignupSameEmailTwice(map[], 0, req, seed, seed, hash);
    var o := SignupOutcome(map[], 0, req, seed, hash);
    assert o.users == map[0 := SignupRecord(req, seed, hash)];
    OwnerIsUnique(o.users, "ana@test.com", 0);
  }

  /** Onboarding with only a full name lists the other four fields as missing, in the check order. */
  lemma AnaOnboardingIncomplete(users: map<Id, User>, userId: Id)
    ensures OnboardOutcome(users, userId, Fields(Some("Ana"), None, None, None, None, None, None, None, None)).response
      == Response(401, Incomplete(AllFieldsRequired, ["bio", "nativeLanguage", "learningLanguage", "location"]), Untouched)
  {
    var body := Fields(Some("Ana"), None, None, None, None, None, None, None, None);
    var xs := [None, Some("bio"), Some("nativeLanguage"), Some("learningLanguage"), Some("location")];
    assert RequiredFields.MissingFields(body) == RequiredFields.Somes(xs);
    assert RequiredFields.Somes(xs) == RequiredFields.Somes(xs[1..]);
    assert RequiredFields.Somes(xs[1..]) == ["bio"] + RequiredFields.Somes(xs[2..]);
    assert RequiredFields.Somes(xs[2..]) == ["nativeLanguage"] + RequiredFields.Somes(xs[3..]);
    assert RequiredFields.Somes(xs[3..]) == ["learningLanguage"] + RequiredFields.Somes(xs[4..]);
    assert RequiredFields.Somes(xs[4..]) == ["location"] + RequiredFields.Somes(xs[5..]);
    assert xs[5..] == [];
    assert RequiredFields.MissingFields(body) == ["bio", "nativeLanguage", "learningLanguage", "location"];
    assert !RequiredFields.AllPresent(body);
  }
}
