# Auth controller of the language-exchange chat backend, in Dafny

This project models the request handlers of the backend's authentication
controller (`backend/controllers/authController.js`): `signup`, `login`,
`logout` and `onboard`. It also models the two pure pieces inside them: the email pattern
`/^[^\s@]+@[^\s@]+\.[^\s@]+$/` and the `missingFields` list of the
onboarding reply.

- `values.dfy` (`Values`): optional body fields and JavaScript truthiness
  (an absent field and `""` are both falsy).
- `email_format.dfy` (`EmailFormat`): the regular expression as a language
  (three non-empty `[^\s@]+` parts around `@` and `.`), the check the
  handler runs, and the proof that the two agree. `\s` is JavaScript's full
  whitespace class.
- `users.dfy` (`Users`): the user record, the update document, and the
  store as a class `UserStore` over a `map<Id, User>`. The store provides
  `FindByEmail`, `Create` and `UpdateById`. Its invariant is that ids are
  below `nextId` and that emails are unique. The pure functions `Insert` and
  `Revise` give the effect of a create and of an update.
- `stream.dfy` (`Stream`): the chat provider's directory, with `Upsert`
  whose success is a parameter.
- `required_fields.dfy` (`RequiredFields`): the required-field test,
  `missingFields` as the source builds it (flag-or-false list, then
  `.filter(Boolean)`), and the proof that it lists exactly the missing
  names in the fixed order.
- `auth_controller.dfy` (`AuthController`): replies (status, payload,
  cookie action), ghost outcome functions for each handler, and the handler
  methods proved against them.
- `auth_properties.dfy` (`AuthProperties`): lemmas about the handlers:
  the validation order, store effects, non-enumerating login errors, the
  one-way `isOnboarded` flag, the store invariant, and the worked example
  of Ana signing up, logging in and onboarding.

Stand-ins for what the controller calls but that is not visible:
`UserStore.hash` is the password hashing the user model applies on save.
`UserStore.matches` is `user.matchPassword`. Both are arbitrary functions
given to the store's constructor. The avatar seed from
`Math.random().toString(36).substring(2)` is an arbitrary string parameter
`seed`. Whether `upsertStreamUser` succeeds is the boolean parameter
`reachable`. The authenticated user `req.user._id` is the parameter `userId`.

Where the written description of the system and the code differ, the model
follows the code:
- Login with a missing email or password answers 400 "Valid email & password
  is required". The HTTP interface description lists only 200, 401 and 500
  for login.
- The message texts are the code's own. Among them is "Atleast 6 characters
  are required". The 500 text of onboarding is "Internal Server error",
  with a lower-case e, while signup and login use "Internal Server Error".
- Onboarding merges the whole request body over the record
  (`...req.body`), not only the five profile fields. The model merges
  `profilePic`, `email`, `password` and `isOnboarded` from the body as well.
  The handler's own `isOnboarded: true` then overrides the body's value. An
  update by id does not run the hashing done on save, so a `password` key
  in the body replaces the stored hash with the plain string.
- The store's email uniqueness also applies to the onboarding update. A body
  whose `email` belongs to another record makes the update fail. That
  failure is the onboarding handler's 500 reply.

## Model

| member | source | states |
|---|---|---|
| `EmailFormat.EmailCheckIsRegex` | backend/controllers/authController.js:19-23 | The email check accepts a string exactly when it is in the language of `^[^\s@]+@[^\s@]+\.[^\s@]+$`: no whitespace, exactly one `@` that is not first, and a `.` at least two characters after it that is not last. |
| `AuthController.SignupError` | backend/controllers/authController.js:9-29 | Signup's four checks in order, first failure wins. Each message occurs exactly when every earlier check passed and its own check fails: missing field, then password shorter than 6, then bad email format, then email already stored. None occurs exactly when all four pass. |
| `AuthProperties.SignupStatus` | backend/controllers/authController.js:9-40 | Signup answers 400 exactly when a check fails and 201 exactly when all pass, so the 500 path after `User.create` is never taken. A rejected signup returns that message and leaves the store unchanged. |
| `AuthProperties.SignupAddsOneRecord` | backend/controllers/authController.js:31-64 | A signup that passes the checks adds exactly one record under a fresh id. The record has the given email and full name, the hashed password, a profile picture starting with the dicebear URL and `isOnboarded` false. The reply is 201 with that user and a 7-day session cookie. |
| `AuthProperties.SignupSameEmailTwice` | backend/controllers/authController.js:25-29 | After a successful signup, the same request is refused with 400 "This email already exists" and the store is unchanged. |
| `AuthController.Signup` | backend/controllers/authController.js:5-69 | The handler's reply and new store equal `SignupOutcome` of the old store, whatever the outcome of the provider call. The directory gains the new identity only when the call succeeds. The store's next id advances exactly on a 201 reply. The store invariant is kept. |
| `Users.UserStore.Create` | backend/controllers/authController.js:35-40 | `User.create` stores the new record under the next id. It refuses a taken email and leaves the store unchanged. It keeps the store invariant. |
| `Users.Insert` | backend/controllers/authController.js:35-40 | A create succeeds exactly when the email is not taken. Success adds one record under an unused id; refusal changes nothing. Email uniqueness is preserved. |
| `Users.UserStore.FindByEmail` | backend/controllers/authController.js:26 | `User.findOne({ email })` returns the one record holding that email, or none when no record holds it. |
| `Users.OwnerOf` | backend/controllers/authController.js:79 | The record found by email, if any, is in the store and holds that email. It exists exactly when the email is taken. |
| `AuthController.Login` | backend/controllers/authController.js:71-103 | Login replies as `LoginOutcome` of the current store. It has no modifies clause, so it never changes the store. |
| `AuthProperties.LoginReplies` | backend/controllers/authController.js:74-98 | A falsy email or password gives 400. An unknown email and a wrong password both give the same 401 "Invalid email or password" reply. Correct credentials give 200 with the user. Only a 200 reply touches the cookie. |
| `AuthProperties.SignupThenLogin` | backend/controllers/authController.js:79-98 | After a successful signup, logging in with the same email and a password the credential check accepts returns the new user with a session cookie. |
| `AuthController.Logout` | backend/controllers/authController.js:105-108 | Logout answers 200 with "Logged out successfully" and clears the cookie. It reads no state. |
| `AuthProperties.LogoutIdempotent` | backend/controllers/authController.js:105-108 | Whatever cookie the client held, after logout it holds none, and a second logout leaves it that way. |
| `RequiredFields.MissingFieldsExact` | backend/controllers/authController.js:117-132 | `missingFields` is a subsequence of fullName, bio, nativeLanguage, learningLanguage, location. It contains a name exactly when that field is falsy. It is empty exactly when all five are present. |
| `RequiredFields.MissingFieldsDetermined` | backend/controllers/authController.js:126-132 | Any list with those two properties equals `missingFields`: the reply lists exactly the missing names in the check order. |
| `AuthProperties.OnboardIncomplete` | backend/controllers/authController.js:117-134 | With a falsy required field, onboarding answers 401 "All the fields are required". `missingFields` names exactly the falsy fields, in check order. The store is unchanged. |
| `AuthController.OnboardingUpdate` | backend/controllers/authController.js:138-141 | The update document is the body with `isOnboarded` set to true. The other keys are exactly the body's. |
| `Users.Revise` | backend/controllers/authController.js:136-146 | `findByIdAndUpdate` returns the merged record and stores it when the id exists and no other record holds the merged email. A missing id gives NotFound and a clashing email gives Conflict, and both leave the store unchanged. The set of ids never changes. Email uniqueness is preserved. |
| `Users.UserStore.UpdateById` | backend/controllers/authController.js:136-143 | The store method has the effect `Revise` describes and keeps the store invariant. |
| `AuthProperties.OnboardComplete` | backend/controllers/authController.js:136-165 | With all fields present: an unknown id gives 401 "User not found" and a clashing email gives 500; both leave the store unchanged. Otherwise the record becomes the body merged over it. Its `isOnboarded` is true whatever the body said. Its credential is the body's `password` as given when the body has one, and the stored one otherwise. The reply is 200 with the new record. |
| `AuthProperties.OnboardStoresRawPassword` | backend/controllers/authController.js:136-143 | A successful onboarding whose body has a `password` key stores that string, unhashed, as the user's credential. |
| `AuthProperties.OnboardRepeat` | backend/controllers/authController.js:136-146 | Repeating a successful onboarding request gives the same reply and store again. |
| `AuthController.Onboard` | backend/controllers/authController.js:110-170 | The handler's reply and new store equal `OnboardOutcome` of the old store, whatever the outcome of the provider call. The directory is updated only on a 200 reply with a successful call. The store invariant is kept. |
| `Stream.Directory.Upsert` | backend/controllers/authController.js:43-52 | The provider call succeeds and stores the identity exactly when the provider is reachable. Otherwise the directory is unchanged. |
| `AuthProperties.SignupNeverOnboards` | backend/controllers/authController.js:35-40 | Signup changes no existing record and adds only non-onboarded ones. |
| `AuthProperties.OnboardedNeverReverts` | backend/controllers/authController.js:136-143 | Onboarding keeps the set of ids, changes at most the caller's record, leaves a changed record onboarded, and never clears the flag on any record. |
| `AuthProperties.StoreInvariantKept` | backend/controllers/authController.js:26-40 | Signup and onboarding both keep ids below the next id and emails unique. |
| `AuthProperties.AnaEmailValid` | backend/controllers/authController.js:19-21 | "ana@test.com" passes the format check. |
| `AuthProperties.AnaScenario` | backend/controllers/authController.js:5-85 | Signup of Ana on an empty store gives 201 with email "ana@test.com", `isOnboarded` false and a cookie set. Repeating it gives "This email already exists". Logging in with a rejected password gives 401 "Invalid email or password". |
| `AuthProperties.AnaOnboardingIncomplete` | backend/controllers/authController.js:117-133 | Onboarding with only a full name answers 401 with `missingFields` equal to bio, nativeLanguage, learningLanguage, location. |

## Left out

- JWT signing and the cookie options: the token content, `httpOnly`, `sameSite` and the `secure` flag that depends on `NODE_ENV`. A reply records only "set a session cookie for this user with max-age 7 days", "clear it" or "leave it".
- The user model (`models/User.js`) is not part of this model. Password hashing and `matchPassword` are arbitrary functions given to the store. So the model does not show that the stored password differs from the plaintext. The default values of bio, languages and location are taken to be empty strings.
- Mongoose schema casting and validators: body values are strings (or a boolean for `isOnboarded`). Keys of the onboarding body other than the nine modelled fields (the five required ones, `profilePic`, `email`, `password`, `isOnboarded`) are not modelled; whether they are stored depends on the schema, which is not part of this model. A hook on the update query that hashes `password`, if the user model has one, is not part of this model either.
- `password.length` counts UTF-16 code units in JavaScript. The model counts the characters of a `seq<char>` instead, which differs for characters outside the Basic Multilingual Plane.
- `Math.random` for the avatar seed is nondeterministic floating point. The seed is a parameter.
- The chat provider client and network. Each call's success is a parameter, and a failure is only logged.
- `console.log`, async/await, and the generic 500 replies for unexpected exceptions such as a database outage or a signing failure. The only 500 replies modelled are a failed create in signup, which is shown never to happen, and an update that would break email uniqueness in onboarding.
- Atomicity of the email check and the create under concurrent requests. Handlers run one at a time.
- `backend/index.js`: server wiring, CORS, environment loading and routing.
