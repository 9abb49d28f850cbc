/** The auth handlers: `register` adds a row to `users` unless the email is
    taken; `login` looks the email up and, on a password match, signs a token.
    Neither response ever carries the stored password. */
module Auth {
  import opened Common
  import opened Schema
  import Validation

  const EmailTaken := HttpError(400, "Email já está em uso")
  const BadCredentials := HttpError(401, "Email ou senha incorretos")

  /** The claims a session token asserts. */
  datatype Claims = Claims(id: int, email: string, name: string)

  /** bcryptjs and jsonwebtoken, whose definitions are not part of this model.
      `hash` takes the salt bcrypt draws at random (cost factor 10); `sign`
      stands for signing with the process secret and a 24-hour expiry. */
  datatype Crypto = Crypto(
    hash: (string, nat) -> string,
    compare: (string, string) -> bool,
    sign: Claims -> string)

  /** The user fields a response carries: there is no place for the password. */
  datatype PublicUser = PublicUser(id: int, name: string, email: string)

  /** The body of a successful login. */
  datatype Session = Session(token: string, user: PublicUser)

  function Public(u: User): PublicUser {
    PublicUser(u.id, u.name, u.email)
  }

  /** `SELECT * FROM users WHERE email = ?` through `db.get`: the first row with that email. */
  function FindByEmail(users: seq<User>, email: string): (r: Option<User>)
    ensures r.Some? <==> exists i :: 0 <= i < |users| && users[i].email == email
    ensures r.Some? ==> r.value in users && r.value.email == email
  {
    if users == [] then None
    else if users[0].email == email then Some(users[0])
    else
      var r := FindByEmail(users[1..], email);
      assert forall i :: 1 <= i < |users| ==> users[i] == users[1..][i - 1];
      r
  }

  /** With unique emails the lookup finds the one user holding that email. */
  lemma FindsTheOwner(users: seq<User>, u: User)
    requires EmailsUnique(users) && u in users
    ensures FindByEmail(users, u.email) == Some(u)
  {
    var r := FindByEmail(users, u.email);
    var i :| 0 <= i < |users| && users[i] == u;
    var j :| 0 <= j < |users| && users[j] == r.value;
  }

  /** `login`: the same 401 for an unknown email and for a wrong password;
      otherwise a token over exactly the stored id, email and name, and the
      user's public fields. */
  function Login(users: seq<User>, email: string, password: string, crypto: Crypto): (r: Result<Session, HttpError>)
    requires EmailsUnique(users)
    ensures r.Err? ==> r.error == BadCredentials
    ensures r.Ok? <==> exists u :: u in users && u.email == email && crypto.compare(password, u.password)
    ensures r.Ok? ==> exists u :: (&& u in users && u.email == email
                                   && r.value == Session(crypto.sign(Claims(u.id, u.email, u.name)), Public(u)))
  {
    match FindByEmail(users, email)
    case None => Err(BadCredentials)
    case Some(u) =>
      assert forall v :: v in users && v.email == email ==> v == u by {
        forall v | v in users && v.email == email ensures v == u {
          FindsTheOwner(users, v);
        }
      }
      if !crypto.compare(password, u.password) then Err(BadCredentials)
      else Ok(Session(crypto.sign(Claims(u.id, u.email, u.name)), Public(u)))
  }

  /** A caller cannot tell an unknown email from a wrong password. */
  lemma LoginFailuresAlike(users: seq<User>, unknown: string, p1: string, known: User, p2: string, crypto: Crypto)
    requires EmailsUnique(users)
    requires forall u :: u in users ==> u.email != unknown
    requires known in users && !crypto.compare(p2, known.password)
    ensures Login(users, unknown, p1, crypto) == Login(users, known.email, p2, crypto)
  {
    FindsTheOwner(users, known);
  }

  /** The table after registering a user whose email is not taken. */
  lemma {:induction false} FindAfterAppend(users: seq<User>, u: User, email: string)
    ensures FindByEmail(users + [u], email)
         == if FindByEmail(users, email).Some? then FindByEmail(users, email)
            else if u.email == email then Some(u) else None
  {
    if users != [] {
      assert (users + [u])[1..] == users[1..] + [u];
      FindAfterAppend(users[1..], u, email);
    }
  }

  /** Appending a user with a fresh email keeps emails unique. */
  lemma AppendKeepsEmailsUnique(users: seq<User>, u: User)
    requires EmailsUnique(users)
    requires FindByEmail(users, u.email).None?
    ensures EmailsUnique(users + [u])
  {
    var all := users + [u];
    forall i, j | 0 <= i < j < |all| ensures all[i].email != all[j].email {
      if j == |users| {
        assert all[i] == users[i];
      }
    }
  }

  /** Register, then log in with the same password: the login succeeds with
      a token for the new user, provided bcrypt's compare accepts what its
      hash produced. */
  lemma LoginAfterRegister(users: seq<User>, u: User, password: string, salt: nat, crypto: Crypto)
    requires EmailsUnique(users) && FindByEmail(users, u.email).None?
    requires u.password == crypto.hash(password, salt)
    requires crypto.compare(password, crypto.hash(password, salt))
    ensures EmailsUnique(users + [u])
    ensures Login(users + [u], u.email, password, crypto)
         == Ok(Session(crypto.sign(Claims(u.id, u.email, u.name)), PublicUser(u.id, u.name, u.email)))
  {
    AppendKeepsEmailsUnique(users, u);
    FindAfterAppend(users, u, u.email);
  }

  /** What POST /auth/register answers: the validation rejection, or the handler's result. */
  datatype RegisterReply = Invalid(gate: Validation.Gate) | Handled(result: Result<PublicUser, HttpError>)

  /** The `users` table, changed in place by INSERT. */
  class UserTable {
    var users: seq<User>
    /** The id AUTOINCREMENT hands out next. */
    var nextId: int

    ghost predicate Valid()
      reads this
    {
      nextId >= 1 && UserIdsUnique(users) && UserIdsBelow(users, nextId) && EmailsUnique(users)
    }

    constructor ()
      ensures Valid() && users == [] && nextId == 1
    {
      users := [];
      nextId := 1;
    }

    /** `register`: a taken email is refused and nothing is written; otherwise
        one row is added holding the hash of the password, and the response
        carries the new id, the name and the email only. */
    method Register(name: string, email: string, password: string, salt: nat, crypto: Crypto, now: Timestamp)
      returns (r: Result<PublicUser, HttpError>)
      requires Valid()
      modifies this
      ensures Valid()
      ensures FindByEmail(old(users), email).Some? ==>
        r == Err(EmailTaken) && users == old(users) && nextId == old(nextId)
      ensures FindByEmail(old(users), email).None? ==>
        && r == Ok(PublicUser(old(nextId), name, email))
        && users == old(users) + [User(old(nextId), name, email, crypto.hash(password, salt), now)]
        && nextId == old(nextId) + 1
    {
      var existing := FindByEmail(users, email);
      if existing.Some? {
        return Err(EmailTaken);
      }
      var hashed := crypto.hash(password, salt);
      var row := User(nextId, name, email, hashed, now);
      AppendKeepsEmailsUnique(users, row);
      users := users + [row];
      r := Ok(PublicUser(nextId, name, email));
      nextId := nextId + 1;
    }

    /** POST /auth/register as wired: `validateUserRegistration`, then `register`
        on the sanitized email. */
    method RegisterRoute(body: RegistrationBody, lib: Validation.Validators, salt: nat, crypto: Crypto, now: Timestamp)
      returns (r: RegisterReply)
      requires Valid()
      modifies this
      ensures Valid()
      ensures Validation.ValidateUserRegistration(body, lib).Reject? ==>
        r == Invalid(Validation.ValidateUserRegistration(body, lib)) && users == old(users) && nextId == old(nextId)
      ensures Validation.ValidateUserRegistration(body, lib).Next? ==>
        && body.name.Str? && body.password.Str? && r.Handled?
        && var email := Validation.SanitizeRegistration(body, lib).email.s;
           && (FindByEmail(old(users), email).Some? ==> r.result == Err(EmailTaken) && users == old(users) && nextId == old(nextId))
           && (FindByEmail(old(users), email).None? ==>
                 && r.result == Ok(PublicUser(old(nextId), body.name.s, email))
                 && users == old(users) + [User(old(nextId), body.name.s, email, crypto.hash(body.password.s, salt), now)]
                 && nextId == old(nextId) + 1)
    {
      var gate := Validation.ValidateUserRegistration(body, lib);
      if gate.Reject? {
        return Invalid(gate);
      }
      var sanitized := Validation.SanitizeRegistration(body, lib);
      var result := Register(sanitized.name.s, sanitized.email.s, sanitized.password.s, salt, crypto, now);
      r := Handled(result);
    }
  }
}
