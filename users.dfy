/**
 * The user store the controller talks to. The Mongoose model behind it is not
 * part of this model, so the store is a map from id to record with the
 * behaviour the controller relies on: lookup by email, creation with defaults
 * and a hashed credential, merge-update by id, and email uniqueness.
 */
module Users {
  import opened Values

  /** A record's `_id`. */
  type Id = nat

  /**
   * A stored user. `password` is the credential as the store keeps it (the
   * output of the store's hash function, never compared directly).
   */
  datatype User = User(
    email: string,
    password: string,
    fullName: string,
    profilePic: string,
    bio: string,
    nativeLanguage: string,
    learningLanguage: string,
    location: string,
    isOnboarded: bool)

  /**
   * An update document: the keys of a request body that the store applies to
   * a record, each `None` when the key is absent. An update by id does not
   * run the hashing done on save, so a `password` key is stored as given.
   */
  datatype Fields = Fields(
    fullName: Option<string>,
    bio: Option<string>,
    nativeLanguage: Option<string>,
    learningLanguage: Option<string>,
    location: Option<string>,
    profilePic: Option<string>,
    email: Option<string>,
    password: Option<string>,
    isOnboarded: Option<bool>)

  /** What an update by id did. */
  datatype UpdateResult = NotFound | Conflict | Updated(user: User)

  /** A present key replaces the stored value; an absent one keeps it. */
  function Override<T>(current: T, given: Option<T>): T
  {
    if given.Some? then given.value else current
  }

  /** The record after merging the update document `f` into `u`. */
  function Apply(u: User, f: Fields): User
  {
    User(
      Override(u.email, f.email),
      Override(u.password, f.password),
      Override(u.fullName, f.fullName),
      Override(u.profilePic, f.profilePic),
      Override(u.bio, f.bio),
      Override(u.nativeLanguage, f.nativeLanguage),
      Override(u.learningLanguage, f.learningLanguage),
      Override(u.location, f.location),
      Override(u.isOnboarded, f.isOnboarded))
  }

  /**
   * The record `User.create` stores: the credential hashed, the profile
   * fields empty and `isOnboarded` false until onboarding.
   */
  function NewRecord(hash: string -> string, email: string, password: string,
                     fullName: string, profilePic: string): User
  {
    User(email, hash(password), fullName, profilePic, "", "", "", "", false)
  }

  /** Some record has this email. */
  predicate EmailTaken(users: map<Id, User>, email: string)
  {
    exists id :: id in users && users[id].email == email
  }

  /** A record other than `self` has this email. */
  predicate EmailTakenByOther(users: map<Id, User>, self: Id, email: string)
  {
    exists id :: id in users && id != self && users[id].email == email
  }

  /** No two records share an email. */
  ghost predicate EmailsUnique(users: map<Id, User>)
  {
    forall i, j :: i in users && j in users && users[i].email == users[j].email ==> i == j
  }

  /** Every id in use is below the next id the store will hand out. */
  ghost predicate IdsBelow(users: map<Id, User>, nextId: Id)
  {
    forall id :: id in users ==> id < nextId
  }

  /** The record `findOne({ email })` returns, if any. */
  ghost function OwnerOf(users: map<Id, User>, email: string): (r: Option<Id>)
    ensures r.Some? <==> EmailTaken(users, email)
    ensures r.Some? ==> r.value in users && users[r.value].email == email
  {
    if EmailTaken(users, email) then
      var id :| id in users && users[id].email == email; Some(id)
    else
      None
  }

  /** Under unique emails the owner of an email is the one record that has it. */
  lemma OwnerIsUnique(users: map<Id, User>, email: string, id: Id)
    requires EmailsUnique(users)
    requires id in users && users[id].email == email
    ensures OwnerOf(users, email) == Some(id)
  {
  }

  /**
   * Creating record `u` under id `nextId`: refused when its email is taken,
   * otherwise added as one new record; email uniqueness is kept either way.
   */
  ghost function Insert(users: map<Id, User>, nextId: Id, u: User): (r: (Option<Id>, map<Id, User>))
    requires IdsBelow(users, nextId)
    ensures r.0.Some? <==> !EmailTaken(users, u.email)
    ensures r.0.None? ==> r.1 == users
    ensures r.0.Some? ==> r.0.value !in users && r.1 == users[r.0.value := u] && IdsBelow(r.1, nextId + 1)
    ensures EmailsUnique(users) ==> EmailsUnique(r.1)
  {
    if EmailTaken(users, u.email) then (None, users) else (Some(nextId), users[nextId := u])
  }

  /**
   * `findByIdAndUpdate(id, f, { new: true })`: no record under `id` gives
   * NotFound, a merged email that another record holds breaks the unique
   * index and gives Conflict, and otherwise the merged record replaces the
   * old one and is returned. Email uniqueness is kept in every case.
   */
  ghost function Revise(users: map<Id, User>, id: Id, f: Fields): (r: (UpdateResult, map<Id, User>))
    ensures r.0.Updated? <==> id in users && !EmailTakenByOther(users, id, Apply(users[id], f).email)
    ensures r.0.Updated? ==> r.0.user == Apply(users[id], f) && r.1 == users[id := r.0.user]
    ensures r.0 == NotFound <==> id !in users
    ensures !r.0.Updated? ==> r.1 == users
    ensures r.1.Keys == users.Keys
    ensures EmailsUnique(users) ==> EmailsUnique(r.1)
  {
    if id !in users then (NotFound, users)
    else
      var merged := Apply(users[id], f);
      if EmailTakenByOther(users, id, merged.email) then (Conflict, users)
      else (Updated(merged), users[id := merged])
  }

  /**
   * The user collection. `hash` and `matches` stand for the model's
   * password hashing on save and its `matchPassword` method.
   */
  class UserStore {
    var users: map<Id, User>
    var nextId: Id
    const hash: string -> string
    const matches: (User, string) -> bool

    ghost predicate Valid()
      reads this
    {
      IdsBelow(users, nextId) && EmailsUnique(users)
    }

    constructor (hash: string -> string, matches: (User, string) -> bool)
      ensures Valid()
      ensures users == map[] && this.hash == hash && this.matches == matches
    {
      users := map[];
      nextId := 0;
      this.hash := hash;
      this.matches := matches;
    }

    /** `User.findOne({ email })`. */
    method FindByEmail(email: string) returns (found: Option<Id>)
      requires Valid()
      ensures found == OwnerOf(users, email)
    {
      if exists id :: id in users && users[id].email == email {
        var id :| id in users && users[id].email == email;
        OwnerIsUnique(users, email, id);
        found := Some(id);
      } else {
        found := None;
      }
    }

    /** `User.create({ email, password, fullName, profilePic })`. */
    method Create(email: string, password: string, fullName: string, profilePic: string)
      returns (created: Option<Id>)
      requires Valid()
      modifies this`users, this`nextId
      ensures Valid()
      ensures (created, users) == Insert(old(users), old(nextId), NewRecord(hash, email, password, fullName, profilePic))
      ensures nextId == if created.Some? then old(nextId) + 1 else old(nextId)
    {
      var record := NewRecord(hash, email, password, fullName, profilePic);
      if exists id :: id in users && users[id].email == email {
        created := None;
      } else {
        created := Some(nextId);
        users := users[nextId := record];
        nextId := nextId + 1;
      }
    }

    /** `User.findByIdAndUpdate(id, f, { new: true })`. */
    method UpdateById(id: Id, f: Fields) returns (result: UpdateResult)
      requires Valid()
      modifies this`users
      ensures Valid()
      ensures (result, users) == Revise(old(users), id, f)
    {
      if id !in users {
        result := NotFound;
      } else {
        var merged := Apply(users[id], f);
        if exists other :: other in users && other != id && users[other].email == merged.email {
          result := Conflict;
        } else {
          result := Updated(merged);
          users := users[id := merged];
        }
      }
    }
  }
}
