/** The authentication handlers (controllers/authController.js): admin login, self
    registration of a user, and the caller's own profile. Password hashing, password
    comparison and token signing belong to libraries; they are the fields of a `Crypto`
    value the handlers receive, and nothing is assumed about them. */
module AuthController {
  import opened Common
  import opened Users
  import opened Http
  import opened EmailPattern
  import ErrorTranslation
  import opened Database

  const MissingCredentials := "Please provide email and password"
  const InvalidCredentials := "Invalid credentials"
  const AdminNotFound := "Admin not found"
  const MissingFields := "Please provide name, email, and password"
  const InvalidEmail := "Please provide a valid email address"
  const ShortPassword := "Password must be at least 6 characters long"
  const EmailExists := "User with this email already exists"
  const RegistrationSuccessful := "Registration successful!"
  const MinPasswordLength := 6
  /** What the password comparison throws when the stored password is absent. */
  const IllegalArguments := "Illegal arguments: string, undefined"

  /** The password hash (`bcrypt.hash(password, 10)`, its salt drawn inside), the password
      check (`bcrypt.compare`) and the token signer (`jwt.sign({ id }, secret, 30 days)`). */
  datatype Crypto = Crypto(hash: string -> string, compare: (string, string) -> bool, sign: Id -> string)

  /** The fields `register` reads from the request body; `None` is `undefined`. */
  datatype Registration = Registration(name: Option<string>, email: Option<string>,
                                       password: Option<string>, role: Option<string>)

  /** `login`: both fields present, then an ADMIN with that email, then the password
      check. An unknown email, a non-admin account and a wrong password all get the same
      401 reply. An admin stored without a password makes the comparison throw, and the
      error translator answers. Reading only; `stack` is the thrown error's stack trace. */
  method Login(db: Db, email: Option<string>, password: Option<string>, crypto: Crypto,
               development: bool, stack: string) returns (resp: Response)
    requires db.Valid()
    ensures !(Truthy(email) && Truthy(password)) ==> resp == Response(400, MessageField(MissingCredentials))
    ensures Truthy(email) && Truthy(password) && !AdminWithEmail(db.users, email.value) ==>
      resp == Response(401, MessageField(InvalidCredentials))
    ensures forall k ::
      Truthy(email) && Truthy(password) && k in db.users && db.users[k].email == email.value && db.users[k].role == AdminRole ==>
      match db.users[k].password
      case None =>
        resp == Response(500, Translated(IllegalArguments, if development then Some(stack) else None, None))
      case Some(stored) =>
        if crypto.compare(password.value, stored) then
          resp == Response(200, LoginData(k, db.users[k].email, db.users[k].name, AdminRole, crypto.sign(k)))
        else
          resp == Response(401, MessageField(InvalidCredentials))
    // Whatever made it fail, a 401 reply never tells which check it was.
    ensures resp.status == 401 ==> resp == Response(401, MessageField(InvalidCredentials))
    // Only an admin with a stored password that the check accepts gets a token.
    ensures resp.status == 200 ==>
      resp.body.LoginData? && resp.body.id in db.users && db.users[resp.body.id].role == AdminRole &&
      db.users[resp.body.id].password.Some? &&
      crypto.compare(password.value, db.users[resp.body.id].password.value) &&
      resp.body.token == crypto.sign(resp.body.id)
  {
    if !Truthy(email) || !Truthy(password) {
      return Response(400, MessageField(MissingCredentials));
    }
    if !AdminWithEmail(db.users, email.value) {
      return Response(401, MessageField(InvalidCredentials));
    }
    var k :| k in db.users && db.users[k].email == email.value && db.users[k].role == AdminRole;
    var admin := db.users[k];
    if admin.password.None? {
      var err := ErrorTranslation.ErrorShape("Error", None, None, IllegalArguments, "", None, stack);
      resp := ErrorTranslation.Translate(err, development);
      return;
    }
    if !crypto.compare(password.value, admin.password.value) {
      return Response(401, MessageField(InvalidCredentials));
    }
    resp := Response(200, LoginData(k, admin.email, admin.name, admin.role, crypto.sign(k)));
  }

  /** `getMe`: the caller's own record, projected to id, name, email and role. Any
      authenticated caller may ask, whatever its role. */
  function GetMe(db: Db, caller: Caller): (resp: Response)
    reads db
    ensures resp.status == 200 <==> caller.id in db.users
    ensures caller.id !in db.users ==> resp == Response(404, MessageField(AdminNotFound))
    ensures resp.status == 200 ==>
      resp.body.Profile? && resp.body.id == caller.id &&
      var u := db.users[caller.id];
      resp.body.name == u.name && resp.body.email == u.email && resp.body.role == u.role
  {
    if caller.id !in db.users then Response(404, MessageField(AdminNotFound))
    else
      var u := db.users[caller.id];
      Response(200, Profile(caller.id, u.name, u.email, u.role))
  }

  /** The early-return checks of `register`, in their order; `None` when all pass. The
      email check is the scan `LooksLikeEmail`, stated here by the pattern it decides. */
  function RegisterGuard(req: Registration, users: map<Id, User>): (m: Option<string>)
    ensures m == Some(MissingFields) <==> !(Truthy(req.name) && Truthy(req.email) && Truthy(req.password))
    ensures m == Some(InvalidEmail) <==>
      Truthy(req.name) && Truthy(req.email) && Truthy(req.password) && !MatchesPattern(req.email.value)
    ensures m == Some(ShortPassword) <==>
      Truthy(req.name) && Truthy(req.email) && Truthy(req.password) && MatchesPattern(req.email.value) &&
      |req.password.value| < MinPasswordLength
    ensures m == Some(EmailExists) <==>
      Truthy(req.name) && Truthy(req.email) && Truthy(req.password) && MatchesPattern(req.email.value) &&
      |req.password.value| >= MinPasswordLength && UserEmailTaken(users, req.email.value)
    ensures m.Some? ==> m.value in {MissingFields, InvalidEmail, ShortPassword, EmailExists}
  {
    if !Truthy(req.name) || !Truthy(req.email) || !Truthy(req.password) then Some(MissingFields)
    else if !LooksLikeEmail(req.email.value) then Some(InvalidEmail)
    else if |req.password.value| < MinPasswordLength then Some(ShortPassword)
    else if UserEmailTaken(users, req.email.value) then Some(EmailExists)
    else None
  }

  /** A registration that passes every check has all three fields, a matching email, a
      long enough password and an email no user has. */
  lemma RegisterGuardPasses(req: Registration, users: map<Id, User>)
    ensures RegisterGuard(req, users).None? <==>
      Truthy(req.name) && Truthy(req.email) && Truthy(req.password) && MatchesPattern(req.email.value) &&
      |req.password.value| >= MinPasswordLength && !UserEmailTaken(users, req.email.value)
  {
    var m := RegisterGuard(req, users);
    if m.Some? {
      assert m.value in {MissingFields, InvalidEmail, ShortPassword, EmailExists};
    }
  }

  /** The user `User.create` stores: the body's name and email, the HASH of the password,
      and the body's role, `user` when the body has none. */
  function NewUser(req: Registration, id: Id, crypto: Crypto, now: Timestamp): User
    requires req.name.Some? && req.email.Some? && req.password.Some?
  {
    User(id, req.name.value, req.email.value, Some(crypto.hash(req.password.value)), req.role.GetOr(DefaultRole), now)
  }

  /** `register`: the first failing check decides the 400 message and nothing is written;
      otherwise exactly one user is added and 201 carries its id, email, role and a token.
      `newId` is the id the database assigns. */
  method Register(db: Db, req: Registration, crypto: Crypto, newId: Id, now: Timestamp) returns (resp: Response)
    requires db.Valid() && newId !in db.users
    modifies db
    ensures db.Valid() && db.students == old(db.students)
    ensures RegisterGuard(req, old(db.users)).Some? ==>
      resp == Response(400, MessageField(RegisterGuard(req, old(db.users)).value)) && db.users == old(db.users)
    ensures RegisterGuard(req, old(db.users)).None? ==>
      req.name.Some? && req.email.Some? && req.password.Some? &&
      db.users == old(db.users)[newId := NewUser(req, newId, crypto, now)] &&
      // The stored password is the hash, never the plaintext, and the role is taken
      // from the body as it is, `user` when absent.
      db.users[newId].password == Some(crypto.hash(req.password.value)) &&
      db.users[newId].role == (if req.role.Some? then req.role.value else DefaultRole) &&
      resp == Response(201, Registered(newId, req.email.value, req.role.GetOr(DefaultRole), crypto.sign(newId),
                                       RegistrationSuccessful))
  {
    var failure := RegisterGuard(req, db.users);
    if failure.Some? {
      return Response(400, MessageField(failure.value));
    }
    RegisterGuardPasses(req, db.users);
    var u := NewUser(req, newId, crypto, now);
    InsertKeepsUsersInvariant(db.users, u);
    db.users := db.users[newId := u];
    resp := Response(201, Registered(newId, u.email, u.role, crypto.sign(newId), RegistrationSuccessful));
  }
}
