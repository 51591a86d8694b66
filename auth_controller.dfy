/** Registration, login and the current-user lookup over the users table. Password
    hashing, password comparison and the two validators are passed in as functions: the
    model says where the handlers use them and what follows from their answers. */
module AuthController {
  import opened Wrappers
  import Js

  type UserId = string

  /** A row of the `users` table. */
  datatype User = User(
    id: UserId, email: string, passwordHash: string, firstName: string, lastName: string,
    avatarUrl: Option<string>, bio: Option<string>)

  /** The functions the handlers call without the model seeing inside them: the email
      and password validators, `hashPassword` and `comparePassword`. */
  datatype Crypto = Crypto(
    validEmail: string -> bool,
    validPassword: string -> bool,
    hash: string -> string,
    matches: (string, string) -> bool)

  /** The payload `generateToken` signs. */
  datatype Claims = Claims(id: UserId, email: string)

  /** The `user` object of a reply: register gives four fields, login adds the avatar,
      the current-user lookup adds the avatar and the bio. */
  datatype UserJson =
    | Registered(id: UserId, email: string, firstName: string, lastName: string)
    | LoggedIn(id: UserId, email: string, firstName: string, lastName: string, avatarUrl: Option<string>)
    | Profile(id: UserId, email: string, firstName: string, lastName: string, avatarUrl: Option<string>,
              bio: Option<string>)

  /** A success reply: its message, the user object and, for register and login, the
      token payload. */
  datatype AuthReply = AuthReply(message: string, user: UserJson, token: Option<Claims>)

  /** The id the store gives its `n`-th user: the decimal text of `n`. */
  function UserIdOf(n: nat): (id: UserId)
    ensures id != ""
  {
    Js.IntToString(n)
  }

  /** Different users get different ids: `parseInt` reads each id back as its number. */
  lemma UserIdsDistinct(a: nat, b: nat)
    ensures UserIdOf(a) == UserIdOf(b) ==> a == b
  {
    ReadUserId(a);
    ReadUserId(b);
  }

  lemma ReadUserId(n: nat)
    ensures Js.ParseInt(UserIdOf(n)) == Some(n)
  {
    var id := UserIdOf(n);
    Js.ParseIntToString("", n, "");
    assert "" + id + "" == id;
  }

  /** `UserModel.findByEmail(email)`: the exact, case-sensitive match. */
  function FindByEmail(users: seq<User>, email: string): (u: Option<User>)
    ensures u.Some? ==> u.value in users && u.value.email == email
    ensures u.None? ==> forall i :: 0 <= i < |users| ==> users[i].email != email
  {
    if users == [] then None
    else if users[0].email == email then Some(users[0])
    else FindByEmail(users[1..], email)
  }

  /** `UserModel.findById(id)`. The user model has two lookups of the same shape, by email
      and by id, and so does this module. */
  function FindById(users: seq<User>, id: UserId): (u: Option<User>)
    ensures u.Some? ==> u.value in users && u.value.id == id
    ensures u.None? ==> forall i :: 0 <= i < |users| ==> users[i].id != id
  {
    if users == [] then None
    else if users[0].id == id then Some(users[0])
    else FindById(users[1..], id)
  }

  /** With unique emails, the user found for an email is the one row holding it. */
  lemma {:induction false} FindByEmailUnique(users: seq<User>, k: int)
    requires forall i, j :: 0 <= i < |users| && 0 <= j < |users| && users[i].email == users[j].email ==> i == j
    requires 0 <= k < |users|
    ensures FindByEmail(users, users[k].email) == Some(users[k])
  {
    if k > 0 {
      assert users[0].email != users[k].email;
      assert users[1..][k - 1] == users[k];
      FindByEmailUnique(users[1..], k - 1);
    }
  }

  class UserStore {
    var users: seq<User>

    /** Users are numbered in the order they registered, and no email is registered
        twice. */
    ghost predicate Valid()
      reads this
    {
      && (forall i :: 0 <= i < |users| ==> users[i].id == UserIdOf(i))
      && (forall i, j :: 0 <= i < |users| && 0 <= j < |users| && users[i].email == users[j].email ==> i == j)
    }

    constructor ()
      ensures Valid() && users == []
    {
      users := [];
    }

    /** `POST /api/auth/register`. The checks run in the source's order: the required
        fields, the email format, the password rule, then an existing account; a new user
        is stored with the hash of the password, never the password, and the reply
        carries a token for the new id and email. */
    method Register(email: Option<string>, password: Option<string>, firstName: Option<string>,
                    lastName: Option<string>, crypto: Crypto)
      returns (res: Response<AuthReply>)
      requires Valid()
      modifies this
      ensures Valid()
      ensures !Js.Truthy(email) || !Js.Truthy(password) || !Js.Truthy(firstName) ==>
        res == Failure(400, "Missing required fields") && users == old(users)
      ensures Js.Truthy(email) && Js.Truthy(password) && Js.Truthy(firstName) ==>
        && (!crypto.validEmail(email.value) ==> res == Failure(400, "Invalid email format") && users == old(users))
        && (crypto.validEmail(email.value) && !crypto.validPassword(password.value) ==>
              res == Failure(400, "Password must be at least 8 characters") && users == old(users))
        && (crypto.validEmail(email.value) && crypto.validPassword(password.value)
            && FindByEmail(old(users), email.value).Some? ==>
              res == Failure(409, "User already exists") && users == old(users))
        && (crypto.validEmail(email.value) && crypto.validPassword(password.value)
            && FindByEmail(old(users), email.value).None? ==>
              var u := User(UserIdOf(|old(users)|), email.value, crypto.hash(password.value), firstName.value,
                            Js.OrElse(lastName, ""), None, None);
              && users == old(users) + [u]
              && FindByEmail(users, email.value) == Some(u)
              && res == Success(201, AuthReply("User registered successfully",
                                               Registered(u.id, u.email, u.firstName, u.lastName),
                                               Some(Claims(u.id, u.email))))
              && (crypto.matches(password.value, crypto.hash(password.value)) ==>
                    Login(email, password, crypto).Success?))
    {
      if !Js.Truthy(email) || !Js.Truthy(password) || !Js.Truthy(firstName) {
        return Failure(400, "Missing required fields");
      }
      if !crypto.validEmail(email.value) {
        return Failure(400, "Invalid email format");
      }
      if !crypto.validPassword(password.value) {
        return Failure(400, "Password must be at least 8 characters");
      }
      if FindByEmail(users, email.value).Some? {
        return Failure(409, "User already exists");
      }
      var u := User(UserIdOf(|users|), email.value, crypto.hash(password.value), firstName.value,
                    Js.OrElse(lastName, ""), None, None);
      users := users + [u];
      FindByEmailUnique(users, |users| - 1);
      res := Success(201, AuthReply("User registered successfully",
                                    Registered(u.id, u.email, u.firstName, u.lastName),
                                    Some(Claims(u.id, u.email))));
    }

    /** `POST /api/auth/login`. */
    function Login(email: Option<string>, password: Option<string>, crypto: Crypto): (res: Response<AuthReply>)
      reads this
      ensures !Js.Truthy(email) || !Js.Truthy(password) ==> res == Failure(400, "Email and password required")
      ensures res.Success? <==>
        && Js.Truthy(email) && Js.Truthy(password)
        && FindByEmail(users, email.value).Some?
        && crypto.matches(password.value, FindByEmail(users, email.value).value.passwordHash)
      ensures Js.Truthy(email) && Js.Truthy(password) && !res.Success? ==> res == Failure(401, "Invalid credentials")
      ensures res.Success? ==>
        var u := FindByEmail(users, email.value).value;
        && res.status == 200 && res.body.message == "Login successful"
        && res.body.user == LoggedIn(u.id, u.email, u.firstName, u.lastName, u.avatarUrl)
        && res.body.token == Some(Claims(u.id, email.value))
    {
      if !Js.Truthy(email) || !Js.Truthy(password) then Failure(400, "Email and password required")
      else match FindByEmail(users, email.value)
        case None => Failure(401, "Invalid credentials")
        case Some(u) =>
          if !crypto.matches(password.value, u.passwordHash) then Failure(401, "Invalid credentials")
          else Success(200, AuthReply("Login successful",
                                      LoggedIn(u.id, u.email, u.firstName, u.lastName, u.avatarUrl),
                                      Some(Claims(u.id, u.email))))
    }

    /** A caller cannot tell an unknown email from a wrong password: both get the same
        401 reply. */
    lemma LoginDoesNotRevealAccounts(unknown: string, anyPassword: string, known: string, wrongPassword: string,
                                     crypto: Crypto)
      requires unknown != "" && anyPassword != "" && known != "" && wrongPassword != ""
      requires FindByEmail(users, unknown).None?
      requires FindByEmail(users, known).Some?
      requires !crypto.matches(wrongPassword, FindByEmail(users, known).value.passwordHash)
      ensures Login(Some(unknown), Some(anyPassword), crypto) == Login(Some(known), Some(wrongPassword), crypto)
      ensures Login(Some(unknown), Some(anyPassword), crypto) == Failure(401, "Invalid credentials")
    {
    }

    /** `GET /api/auth/me` for the id the token carried: 401 without one, 404 for an id
        no user has, and the user's profile for every other id. */
    function GetCurrentUser(tokenUserId: Option<UserId>): (res: Response<AuthReply>)
      reads this
      ensures !Js.Truthy(tokenUserId) ==> res == Failure(401, "User not authenticated")
      ensures Js.Truthy(tokenUserId) && FindById(users, tokenUserId.value).None? ==> res == Failure(404, "User not found")
      ensures res.Success? <==> Js.Truthy(tokenUserId) && FindById(users, tokenUserId.value).Some?
      ensures res.Success? ==>
        var u := FindById(users, tokenUserId.value).value;
        && res == Success(200, AuthReply("User fetched successfully",
                                         Profile(u.id, u.email, u.firstName, u.lastName, u.avatarUrl, u.bio), None))
    {
      if !Js.Truthy(tokenUserId) then Failure(401, "User not authenticated")
      else match FindById(users, tokenUserId.value)
        case None => Failure(404, "User not found")
        case Some(u) =>
          Success(200, AuthReply("User fetched successfully",
                                 Profile(u.id, u.email, u.firstName, u.lastName, u.avatarUrl, u.bio), None))
    }

    /** The token a login issues leads back to the same user: the current-user lookup
        with its id answers with that user's profile. */
    lemma LoginTokenIdentifiesUser(email: Option<string>, password: Option<string>, crypto: Crypto)
      requires Valid()
      requires Login(email, password, crypto).Success?
      ensures var claims := Login(email, password, crypto).body.token.value;
        var u := FindByEmail(users, email.value).value;
        && GetCurrentUser(Some(claims.id)).Success?
        && GetCurrentUser(Some(claims.id)).body.user.email == u.email
        && GetCurrentUser(Some(claims.id)).body.user.id == u.id
    {
      var u := FindByEmail(users, email.value).value;
      var k :| 0 <= k < |users| && users[k] == u;
      FindByIdUnique(k);
    }

    lemma FindByIdUnique(k: int)
      requires Valid() && 0 <= k < |users|
      ensures FindById(users, users[k].id) == Some(users[k])
    {
      FindByIdPrefix(users, 0, k);
    }
  }

  /** In a run of rows numbered `base`, `base + 1`, ... the row found for the `k`-th id is
      the `k`-th row. */
  lemma {:induction false} FindByIdPrefix(users: seq<User>, base: nat, k: int)
    requires forall i :: 0 <= i < |users| ==> users[i].id == UserIdOf(base + i)
    requires 0 <= k < |users|
    ensures FindById(users, users[k].id) == Some(users[k])
  {
    if k > 0 {
      UserIdsDistinct(base, base + k);
      assert users[0].id == UserIdOf(base) && users[k].id == UserIdOf(base + k);
      assert users[0].id != users[k].id;
      assert users[1..][k - 1] == users[k];
      FindByIdPrefix(users[1..], base + 1, k - 1);
    }
  }
}
