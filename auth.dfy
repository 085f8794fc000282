/** The user store and the handlers of authController.js: registration, login
    and profile update.

    Password hashing (bcrypt) and token signing (JSON Web Token, RFC 7519) are
    foreign calls. Hashing is modelled by an abstract key-derivation function
    `Kdf` of a salt and a password: a stored hash keeps its salt, and checking a
    password recomputes the derivation with that salt. A token is modelled by
    the claims it carries and the key that signs it. */
module Auth {
  import opened Common

  type UserId = nat
  type Salt = nat

  /** bcrypt's key derivation, left abstract. */
  type Kdf = (Salt, string) -> string

  /** What is stored in place of the password: never the plaintext. */
  datatype PasswordHash = PasswordHash(salt: Salt, digest: string)

  function Hash(kdf: Kdf, salt: Salt, password: string): PasswordHash
  {
    PasswordHash(salt, kdf(salt, password))
  }

  /** bcrypt.compare: derive again with the stored salt and compare digests. */
  predicate Compare(kdf: Kdf, password: string, stored: PasswordHash)
  {
    kdf(stored.salt, password) == stored.digest
  }

  /** The one property of bcrypt the handlers rely on: a password matches its own hash. */
  lemma CompareOwnHash(kdf: Kdf, salt: Salt, password: string)
    ensures Compare(kdf, password, Hash(kdf, salt, password))
  {
  }

  /** Token lifetime in seconds: `expiresIn: '1h'`. */
  const TokenLifetime: nat := 3600

  datatype Token = Token(subject: UserId, key: string, expiresIn: nat)

  /** jwt.sign({ id }, key, { expiresIn: '1h' }). */
  function Sign(id: UserId, key: string): Token
  {
    Token(id, key, TokenLifetime)
  }

  /** The signing secret from the environment counts as present only when it is
      set and non-empty; both the explicit check in loginUser and jwt.sign
      reject an empty one. */
  predicate SecretPresent(secret: Option<string>)
  {
    secret.Some? && secret.value != ""
  }

  /** A stored user document. */
  datatype User = User(
    id: UserId, name: string, email: string, password: PasswordHash,
    age: Option<int>, mobile: Option<string>, profileImage: Option<string>)

  /** findOne({ email }): the first user whose email is exactly this one. */
  function FindByEmail(users: seq<User>, email: string): (r: Option<nat>)
    ensures r.Some? ==> r.value < |users| && users[r.value].email == email
    ensures r.Some? ==> forall j :: 0 <= j < r.value ==> users[j].email != email
    ensures r.None? ==> forall j :: 0 <= j < |users| ==> users[j].email != email
  {
    FirstWhere(users, (u: User) => u.email == email)
  }

  /** findById. */
  function FindById(users: seq<User>, id: UserId): (r: Option<nat>)
    ensures r.Some? ==> r.value < |users| && users[r.value].id == id
    ensures r.None? ==> forall j :: 0 <= j < |users| ==> users[j].id != id
  {
    FirstWhere(users, (u: User) => u.id == id)
  }

  ghost predicate UniqueIds(users: seq<User>)
  {
    forall j, k :: 0 <= j < k < |users| ==> users[j].id != users[k].id
  }

  ghost predicate IdsBelow(users: seq<User>, next: UserId)
  {
    forall k :: 0 <= k < |users| ==> users[k].id < next
  }

  lemma FindByIdUnique(users: seq<User>, k: nat)
    requires UniqueIds(users)
    requires k < |users|
    ensures FindById(users, users[k].id) == Some(k)
  {
    var r := FindById(users, users[k].id);
    assert r.Some?;
    assert users[r.value].id == users[k].id;
  }

  // ---------------------------------------------------------------------------
  // registerUser
  // ---------------------------------------------------------------------------

  /** The user part of the register response: id, name and email only. */
  datatype NewUserView = NewUserView(id: UserId, name: string, email: string)

  datatype RegisterResult =
    | Registered(token: Token, user: NewUserView)
    | UserExists
    | RegisterServerError
  {
    function Status(): nat
    {
      match this
      case Registered(_, _) => 200
      case UserExists => 400
      case RegisterServerError => 500
    }

    function Message(): string
      requires !Registered?
    {
      if UserExists? then "User already exists" else "Server Error"
    }
  }

  /** registerUser: refuse a known email; otherwise save the user with the hash
      of the password, then sign a token. The user is saved before the token is
      signed, so a missing secret turns the reply into a server error after the
      user has been stored. */
  function RegisterStep(users: seq<User>, id: UserId, name: string, email: string, password: string,
                        salt: Salt, kdf: Kdf, secret: Option<string>): Step<seq<User>, RegisterResult>
  {
    if FindByEmail(users, email).Some? then Step(users, UserExists)
    else
      var user := User(id, name, email, Hash(kdf, salt, password), None, None, None);
      Step(users + [user],
           if SecretPresent(secret) then Registered(Sign(id, secret.value), NewUserView(id, name, email))
           else RegisterServerError)
  }

  /** An email that is already stored is refused with 400 and nothing is saved. */
  lemma RegisterExisting(users: seq<User>, id: UserId, name: string, email: string, password: string,
                         salt: Salt, kdf: Kdf, secret: Option<string>)
    requires exists k :: 0 <= k < |users| && users[k].email == email
    ensures var s := RegisterStep(users, id, name, email, password, salt, kdf, secret);
      s.state == users && s.result == UserExists
      && s.result.Status() == 400 && s.result.Message() == "User already exists"
  {
  }

  /** A new email adds exactly one user at the end, holding the hash of the
      password and no profile fields; the reply carries a token for the new id,
      or, when the secret is missing, a server error with the user stored anyway. */
  lemma RegisterNew(users: seq<User>, id: UserId, name: string, email: string, password: string,
                    salt: Salt, kdf: Kdf, secret: Option<string>)
    requires forall k :: 0 <= k < |users| ==> users[k].email != email
    ensures var s := RegisterStep(users, id, name, email, password, salt, kdf, secret);
      && |s.state| == |users| + 1
      && s.state[..|users|] == users
      && var u := s.state[|users|];
         && u.id == id && u.name == name && u.email == email
         && u.password == Hash(kdf, salt, password)
         && Compare(kdf, password, u.password)
         && u.age == None && u.mobile == None && u.profileImage == None
         && (SecretPresent(secret) ==>
               s.result == Registered(Token(id, secret.value, TokenLifetime), NewUserView(id, name, email)))
         && (!SecretPresent(secret) ==> s.result == RegisterServerError && s.result.Status() == 500)
  {
    assert (users + [RegisterStep(users, id, name, email, password, salt, kdf, secret).state[|users|]])[..|users|] == users;
  }

  lemma RegisterPreservesInvariants(users: seq<User>, next: UserId, name: string, email: string, password: string,
                                    salt: Salt, kdf: Kdf, secret: Option<string>)
    requires UniqueIds(users) && IdsBelow(users, next)
    ensures var s := RegisterStep(users, next, name, email, password, salt, kdf, secret).state;
      UniqueIds(s) && IdsBelow(s, next + 1)
  {
  }

  // ---------------------------------------------------------------------------
  // loginUser
  // ---------------------------------------------------------------------------

  /** The user part of the login response: no password. */
  datatype LoginView = LoginView(id: UserId, name: string, email: string, profileImage: Option<string>)

  datatype LoginResult =
    | LoggedIn(token: Token, user: LoginView)
    | InvalidCredentials
    | LoginServerError
  {
    function Status(): nat
    {
      match this
      case LoggedIn(_, _) => 200
      case InvalidCredentials => 400
      case LoginServerError => 500
    }

    function Message(): string
      requires !LoggedIn?
    {
      if InvalidCredentials? then "Invalid Credentials" else "Server Error"
    }
  }

  /** The credential check: the email is stored and the password matches the
      hash of the first user stored under it. */
  predicate CredentialsMatch(users: seq<User>, email: string, password: string, kdf: Kdf)
  {
    match FindByEmail(users, email)
    case None => false
    case Some(k) => Compare(kdf, password, users[k].password)
  }

  function Login(users: seq<User>, email: string, password: string, kdf: Kdf, secret: Option<string>): (r: LoginResult)
    ensures r.InvalidCredentials? <==> !CredentialsMatch(users, email, password, kdf)
    ensures r.LoginServerError? <==> CredentialsMatch(users, email, password, kdf) && !SecretPresent(secret)
    ensures r.LoggedIn? ==>
      exists k :: 0 <= k < |users| && users[k].email == email
        && (forall j :: 0 <= j < k ==> users[j].email != email)
        && Compare(kdf, password, users[k].password)
        && r.token == Token(users[k].id, secret.value, TokenLifetime)
        && r.user == LoginView(users[k].id, users[k].name, users[k].email, users[k].profileImage)
  {
    match FindByEmail(users, email)
    case None => InvalidCredentials
    case Some(k) =>
      if !Compare(kdf, password, users[k].password) then InvalidCredentials
      else if !SecretPresent(secret) then LoginServerError
      else LoggedIn(Sign(users[k].id, secret.value),
                    LoginView(users[k].id, users[k].name, email, users[k].profileImage))
  }

  /** An unknown email and a wrong password give the identical reply, 400
      "Invalid Credentials", whatever the secret. */
  lemma LoginFailuresIndistinguishable(unknown: seq<User>, known: seq<User>, email: string,
                                       password: string, kdf: Kdf, secret: Option<string>)
    requires forall k :: 0 <= k < |unknown| ==> unknown[k].email != email
    requires exists k :: 0 <= k < |known| && known[k].email == email
    requires !CredentialsMatch(known, email, password, kdf)
    ensures Login(unknown, email, password, kdf, secret) == Login(known, email, password, kdf, secret)
    ensures Login(known, email, password, kdf, secret).Status() == 400
    ensures Login(known, email, password, kdf, secret).Message() == "Invalid Credentials"
  {
  }

  /** Registering and then logging in with the same email and password passes
      the credential check: it logs in when the secret is present, and otherwise
      fails with a server error, never with "Invalid Credentials". */
  lemma {:induction false} RegisterThenLogin(users: seq<User>, id: UserId, name: string, email: string,
                                             password: string, salt: Salt, kdf: Kdf, secret: Option<string>)
    requires forall k :: 0 <= k < |users| ==> users[k].email != email
    ensures var after := RegisterStep(users, id, name, email, password, salt, kdf, secret).state;
      && CredentialsMatch(after, email, password, kdf)
      && var r := Login(after, email, password, kdf, secret);
         && (SecretPresent(secret) ==>
               r == LoggedIn(Token(id, secret.value, TokenLifetime), LoginView(id, name, email, None)))
         && (!SecretPresent(secret) ==> r == LoginServerError)
  {
    var user := User(id, name, email, Hash(kdf, salt, password), None, None, None);
    FirstWhereAppend(users, user, (u: User) => u.email == email);
    CompareOwnHash(kdf, salt, password);
  }

  // ---------------------------------------------------------------------------
  // updateProfile
  // ---------------------------------------------------------------------------

  /** The four profile fields the body may carry; an absent field is `None`
      and leaves the stored value as it is. */
  datatype ProfilePatch = ProfilePatch(
    age: Option<int>, mobile: Option<string>, profileImage: Option<string>, email: Option<string>)

  /** A user record without its password, as updateProfile returns it. */
  datatype Profile = Profile(
    id: UserId, name: string, email: string,
    age: Option<int>, mobile: Option<string>, profileImage: Option<string>)

  function ProfileOf(u: User): Profile
  {
    Profile(u.id, u.name, u.email, u.age, u.mobile, u.profileImage)
  }

  function Override<T>(current: Option<T>, given: Option<T>): Option<T>
  {
    if given.Some? then given else current
  }

  function Patched(u: User, p: ProfilePatch): User
  {
    u.(age := Override(u.age, p.age),
       mobile := Override(u.mobile, p.mobile),
       profileImage := Override(u.profileImage, p.profileImage),
       email := if p.email.Some? then p.email.value else u.email)
  }

  /** findByIdAndUpdate(userId, fields, { new: true }).select('-password'):
      the updated record without its password, or nothing when no user has
      that id (the handler then replies with null). */
  function UpdateStep(users: seq<User>, userId: UserId, patch: ProfilePatch): Step<seq<User>, Option<Profile>>
  {
    match FindById(users, userId)
    case None => Step(users, None)
    case Some(k) =>
      var u := Patched(users[k], patch);
      Step(users[k := u], Some(ProfileOf(u)))
  }

  /** Updating a profile changes at most age, mobile, profileImage and email of
      the caller's record, each exactly when the body gives it; id, name and
      password stay, and so does every other user. The reply is the new record. */
  lemma {:induction false} UpdateTouchesOnlyProfile(users: seq<User>, userId: UserId, patch: ProfilePatch)
    requires UniqueIds(users)
    ensures var s := UpdateStep(users, userId, patch);
      && |s.state| == |users|
      && (s.result.None? <==> forall k :: 0 <= k < |users| ==> users[k].id != userId)
      && (s.result.None? ==> s.state == users)
    ensures var s := UpdateStep(users, userId, patch);
      forall k :: 0 <= k < |users| && users[k].id == userId ==>
        var (was, now) := (users[k], s.state[k]);
        && now.id == was.id && now.name == was.name && now.password == was.password
        && now.age == (if patch.age.Some? then patch.age else was.age)
        && now.mobile == (if patch.mobile.Some? then patch.mobile else was.mobile)
        && now.profileImage == (if patch.profileImage.Some? then patch.profileImage else was.profileImage)
        && now.email == (if patch.email.Some? then patch.email.value else was.email)
        && s.result == Some(ProfileOf(now))
        && (forall j :: 0 <= j < |users| && j != k ==> s.state[j] == users[j])
  {
    forall k | 0 <= k < |users| && users[k].id == userId
      ensures FindById(users, userId) == Some(k)
    {
      FindByIdUnique(users, k);
    }
  }

  /** The profile reply does not depend on the stored password at all. */
  lemma ProfileHidesPassword(u: User, other: PasswordHash)
    ensures ProfileOf(u) == ProfileOf(u.(password := other))
  {
  }

  lemma UpdatePreservesInvariants(users: seq<User>, next: UserId, userId: UserId, patch: ProfilePatch)
    requires UniqueIds(users) && IdsBelow(users, next)
    ensures var s := UpdateStep(users, userId, patch).state;
      UniqueIds(s) && IdsBelow(s, next)
  {
    var s := UpdateStep(users, userId, patch).state;
    assert forall k :: 0 <= k < |s| ==> s[k].id == users[k].id;
  }

  // ---------------------------------------------------------------------------
  // The store, with the handlers that write to it
  // ---------------------------------------------------------------------------

  class UserStore {
    var users: seq<User>
    var nextId: UserId

    ghost predicate Valid()
      reads this
    {
      UniqueIds(users) && IdsBelow(users, nextId)
    }

    constructor ()
      ensures Valid() && users == [] && nextId == 0
    {
      users := [];
      nextId := 0;
    }

    /** registerUser, with the generated salt and the environment's secret as inputs. */
    method RegisterUser(name: string, email: string, password: string,
                        salt: Salt, kdf: Kdf, secret: Option<string>) returns (r: RegisterResult)
      requires Valid()
      modifies this
      ensures Valid()
      ensures Step(users, r) == RegisterStep(old(users), old(nextId), name, email, password, salt, kdf, secret)
      ensures nextId == if r.UserExists? then old(nextId) else old(nextId) + 1
    {
      var existing := FindByEmail(users, email);
      if existing.Some? {
        return UserExists;
      }
      var user := User(nextId, name, email, Hash(kdf, salt, password), None, None, None);
      RegisterPreservesInvariants(users, nextId, name, email, password, salt, kdf, secret);
      users := users + [user];
      nextId := nextId + 1;
      if !SecretPresent(secret) {
        return RegisterServerError;
      }
      r := Registered(Sign(user.id, secret.value), NewUserView(user.id, name, email));
    }

    /** updateProfile for the authenticated caller `userId`. */
    method UpdateProfile(userId: UserId, patch: ProfilePatch) returns (r: Option<Profile>)
      requires Valid()
      modifies this
      ensures Valid() && nextId == old(nextId)
      ensures Step(users, r) == UpdateStep(old(users), userId, patch)
    {
      var found := FindById(users, userId);
      if found.None? {
        return None;
      }
      var k := found.value;
      var updated := Patched(users[k], patch);
      UpdatePreservesInvariants(users, nextId, userId, patch);
      users := users[k := updated];
      r := Some(ProfileOf(updated));
    }
  }
}
