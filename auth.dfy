/** POST /api/auth/register and POST /api/auth/login over the user table.
    Password hashing and token signing are kept abstract: a hash is a value
    that `Compare` accepts for the password it was made from and no other,
    and a token is the set of claims that would be signed. */
module Auth {
  import opened Wrappers
  import opened Search
  import opened Schema

  /** The bcrypt work factor the handler passes. */
  const HashCost := 10
  /** `expiresIn: '24h'`, in seconds. */
  const TokenLifetime := 24 * 60 * 60

  const MissingRegisterFields := HttpError(400, "Email, password, and name are required")
  const UserExists := HttpError(400, "User already exists")
  const MissingLoginFields := HttpError(400, "Email and password are required")
  const InvalidCredentials := HttpError(400, "Invalid credentials")

  /** Stands for a salted bcrypt hash. Only what the handlers rely on is
      modelled: it is made from a password, a cost and a random salt, and
      `Compare` accepts exactly the password it was made from. */
  datatype PasswordHash = PasswordHash(cost: int, salt: int, source: string)

  function Hash(password: string, salt: int): PasswordHash
  {
    PasswordHash(HashCost, salt, password)
  }

  predicate Compare(password: string, h: PasswordHash)
  {
    h.source == password
  }

  datatype User = User(id: int, email: string, password: PasswordHash, name: string)

  /** The user as responses show it: no password hash. */
  datatype PublicUser = PublicUser(id: int, email: string, name: string)

  /** The claims of a signed token: `{ userId, email }` and the issue and
      expiry times that `expiresIn` adds. */
  datatype Token = Token(userId: int, email: string, issuedAt: int, expiresAt: int)

  datatype AuthResponse = AuthResponse(status: int, message: string, token: Token, user: PublicUser)

  function Sign(u: User, now: int): (t: Token)
    ensures t.userId == u.id && t.email == u.email
    ensures t.issuedAt == now && t.expiresAt == now + TokenLifetime
  {
    Token(u.id, u.email, now, now + TokenLifetime)
  }

  function Public(u: User): PublicUser
  {
    PublicUser(u.id, u.email, u.name)
  }

  /** `findUnique({ where: { email } })`. */
  function FindByEmail(users: seq<User>, email: string): (r: Option<nat>)
    ensures r.Some? ==> r.value < |users| && users[r.value].email == email
    ensures r.None? ==> forall j :: 0 <= j < |users| ==> users[j].email != email
  {
    FirstIndex(users, (u: User) => u.email == email)
  }

  class UserTable {
    var users: seq<User>
    /** The next value of the auto-increment id column. */
    var nextId: int

    /** Ids are positive, below the counter and unique; emails are unique. */
    ghost predicate Valid()
      reads this
    {
      && nextId >= 1
      && (forall i :: 0 <= i < |users| ==> 1 <= users[i].id < nextId)
      && (forall i, j :: 0 <= i < |users| && 0 <= j < |users| && users[i].id == users[j].id ==> i == j)
      && (forall i, j :: 0 <= i < |users| && 0 <= j < |users| && users[i].email == users[j].email ==> i == j)
    }

    constructor ()
      ensures Valid() && users == [] && nextId == 1
    {
      users := [];
      nextId := 1;
    }

    /** The login handler. An unknown email and a wrong password give the
        same answer. */
    function Login(email: Option<string>, password: Option<string>, now: int): (r: Result<AuthResponse, HttpError>)
      reads this
      requires Valid()
      ensures !Truthy(email) || !Truthy(password) ==> r == Err(MissingLoginFields)
      ensures Truthy(email) && Truthy(password) ==>
                (r.Ok? <==> exists i :: 0 <= i < |users| && users[i].email == email.value && Compare(password.value, users[i].password))
      ensures Truthy(email) && Truthy(password) && r.Err? ==> r == Err(InvalidCredentials)
      ensures r.Ok? ==>
                && r.value.status == 200
                && r.value.user.email == email.value
                && r.value.token.email == email.value
                && r.value.token.userId == r.value.user.id
                && r.value.token.expiresAt == now + TokenLifetime
    ensures r.Ok? ==>
                && FindByEmail(users, email.value).Some?
                && var u := users[FindByEmail(users, email.value).value];
                   r.value.user == Public(u) && r.value.token == Sign(u, now)
    {
      if !Truthy(email) || !Truthy(password) then Err(MissingLoginFields)
      else match FindByEmail(users, email.value)
        case None => Err(InvalidCredentials)
        case Some(i) =>
          if !Compare(password.value, users[i].password) then Err(InvalidCredentials)
          else Ok(AuthResponse(200, "Login successful", Sign(users[i], now), Public(users[i])))
    }

    /** The registration handler; `salt` is the random salt the hash draws. */
    method Register(email: Option<string>, password: Option<string>, name: Option<string>, salt: int, now: int)
      returns (r: Result<AuthResponse, HttpError>)
      requires Valid()
      modifies this
      ensures Valid()
      ensures !Truthy(email) || !Truthy(password) || !Truthy(name) ==>
                r == Err(MissingRegisterFields) && users == old(users) && nextId == old(nextId)
      ensures Truthy(email) && Truthy(password) && Truthy(name) && FindByEmail(old(users), email.value).Some? ==>
                r == Err(UserExists) && users == old(users) && nextId == old(nextId)
      ensures Truthy(email) && Truthy(password) && Truthy(name) && FindByEmail(old(users), email.value).None? ==>
                var u := User(old(nextId), email.value, Hash(password.value, salt), name.value);
                && users == old(users) + [u]
                && nextId == old(nextId) + 1
                && r == Ok(AuthResponse(201, "User created successfully", Sign(u, now), Public(u)))
      ensures r.Ok? ==> Login(email, password, now).Ok? && Login(email, password, now).value.user == r.value.user
    {
      if !Truthy(email) || !Truthy(password) || !Truthy(name) {
        return Err(MissingRegisterFields);
      }
      var existing := FindByEmail(users, email.value);
      if existing.Some? {
        return Err(UserExists);
      }
      var hashed := Hash(password.value, salt);
      var u := User(nextId, email.value, hashed, name.value);
      users := users + [u];
      nextId := nextId + 1;
      assert users[|users| - 1] == u;
      r := Ok(AuthResponse(201, "User created successfully", Sign(u, now), Public(u)));
    }
  }

  /** Registering the same email a second time is refused and adds no user. */
  method RegisterTwiceConflicts(email: string, name: string, first: string, second: string)
    returns (r1: Result<AuthResponse, HttpError>, r2: Result<AuthResponse, HttpError>, count: nat)
    requires email != "" && name != "" && first != "" && second != ""
    ensures r1.Ok? && r2 == Err(UserExists) && count == 1
  {
    var table := new UserTable();
    r1 := table.Register(Some(email), Some(first), Some(name), 7, 0);
    r2 := table.Register(Some(email), Some(second), Some(name), 8, 1);
    count := |table.users|;
  }
}
