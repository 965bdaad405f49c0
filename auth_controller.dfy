/**
 * backend/controllers/authController.js: register and login. Both write the signed-in user
 * into the session and then save it; `saved` is the session store's verdict on that save.
 * bcryptjs is taken as a pair of functions, with the one law the handlers rely on.
 */
module AuthController {
  import opened Wrappers
  import opened Schema
  import opened Validators
  import opened AuthRoutes
  import opened Http
  import opened Database
  import opened Sessions
  import opened UserModel
  import TeamController

  /** bcrypt.hash(password, 10) and bcrypt.compare(password, hash); salt and cost are not modelled. */
  datatype Bcrypt = Bcrypt(hash: string -> string, compare: (string, string) -> bool)

  /** A password matches the hash made from it. */
  ghost predicate Sound(b: Bcrypt) {
    forall p :: b.compare(p, b.hash(p))
  }

  /**
   * A handler's effect: the database afterwards, the response, and the user whose id, email
   * and is_admin were written into the session, if any.
   */
  datatype AuthOutcome = AuthOutcome(db: Db, response: Response, signedIn: Option<UserView>)

  const InvalidCredentials := Response(400, Message("Invalid credentials"))
  const SessionError := Response(500, Message("Session error"))

  /** The email as the query and the varchar column read it; null and arrays are not looked up. */
  function EmailOf(body: Body): (r: Option<string>)
    ensures r.Some? <==> TextColumn(Field(body, "email")).Some? && TextColumn(Field(body, "email")).value.Some?
    ensures r.Some? ==> r.value == BoundText(Field(body, "email"))
  {
    var e := TextColumn(Field(body, "email"));
    if e.Some? && e.value.Some? then e.value else None
  }

  /**
   * `is_admin || false` as the boolean column stores it: a falsy value is false, "true",
   * "1" and 1 are true, "false" and "0" are false. Anything else (an array, an object,
   * another number or word) is refused by Postgres.
   */
  function AdminFlag(body: Body): (r: Option<bool>)
    ensures "is_admin" !in body ==> r == Some(false)
    ensures r == Some(true) ==> "is_admin" in body && Text(body["is_admin"]) in {"true", "1"}
  {
    if "is_admin" !in body then Some(false)
    else
      match body["is_admin"]
      case Null => Some(false)
      case Bool(b) => Some(b)
      case Num(n) => if n == 0 then Some(false) else if n == 1 then Some(true) else None
      case Str(s) =>
        if s == "" || s == "false" || s == "0" then Some(false)
        else if s == "true" || s == "1" then Some(true)
        else None
      case Arr(_) => None
      case Obj(_) => None
  }

  /** Once validated, a scalar is_admin is stored as true exactly when it reads "true" or "1". */
  lemma ValidatedAdminFlag(c: Checks, body: Body)
    requires RegisterErrors(c, body) == []
    ensures "is_admin" in body && !body["is_admin"].Arr? ==>
      AdminFlag(body) == Some(Text(body["is_admin"]) in {"true", "1"})
    ensures "is_admin" in body && body["is_admin"].Arr? ==> AdminFlag(body).None?
  {
  }

  /**
   * register: 400 on a validation error; 400 "Email already in use" when the lookup finds
   * the email; otherwise the hash of the password is stored with the admin flag, and the new
   * user is signed in. bcryptjs throws on a password that is not a string.
   */
  function Register(c: Checks, b: Bcrypt, db: Db, body: Body, saved: bool): (o: AuthOutcome)
    ensures RegisterErrors(c, body) != [] ==> o == AuthOutcome(db, BadRequest(RegisterErrors(c, body)), None)
    ensures o.response.status in {201, 400, 500}
    ensures o.db.(users := db.users, nextUserId := db.nextUserId) == db
    ensures o.signedIn.None? ==> o.db.users == db.users
    ensures RegisterErrors(c, body) == [] && EmailOf(body).Some? && EmailOf(body).value in Emails(db) ==>
      o == AuthOutcome(db, Response(400, Message("Email already in use")), None)
    ensures o.signedIn.Some? <==>
      && RegisterErrors(c, body) == [] && EmailOf(body).Some? && EmailOf(body).value !in Emails(db)
      && Field(body, "password").Str? && AdminFlag(body).Some?
    ensures o.signedIn.Some? ==>
      && o.signedIn.value == UserView(db.nextUserId, EmailOf(body).value, AdminFlag(body).value)
      && o.db.users == db.users + [User(db.nextUserId, EmailOf(body).value, b.hash(body["password"].s), AdminFlag(body).value)]
      && o.response == (if saved then Response(201, Account(o.signedIn.value)) else SessionError)
  {
    var errs := RegisterErrors(c, body);
    if errs != [] then AuthOutcome(db, BadRequest(errs), None)
    else if EmailOf(body).None? then AuthOutcome(db, ServerError, None)
    else
      var email := EmailOf(body).value;
      if FindUserByEmail(db, email).Some? then AuthOutcome(db, Response(400, Message("Email already in use")), None)
      else if !Field(body, "password").Str? || AdminFlag(body).None? then AuthOutcome(db, ServerError, None)
      else
        var step := InsertUser(db, email, b.hash(body["password"].s), AdminFlag(body));
        if step.out.Err? then AuthOutcome(step.db, ServerError, None)
        else
          var user := step.out.value;
          AuthOutcome(step.db, if saved then Response(201, Account(user)) else SessionError, Some(user))
  }

  /**
   * login: 400 on a validation error; the same 400 "Invalid credentials" for an unknown
   * email and for a wrong password; otherwise the stored user is signed in.
   */
  function Login(c: Checks, b: Bcrypt, db: Db, body: Body, saved: bool): (o: AuthOutcome)
    ensures LoginErrors(c, body) != [] ==> o == AuthOutcome(db, BadRequest(LoginErrors(c, body)), None)
    ensures o.db == db
    ensures o.response.status in {200, 400, 500}
    ensures LoginErrors(c, body) == [] && EmailOf(body).Some? && EmailOf(body).value !in Emails(db) ==>
      o.response == InvalidCredentials && o.signedIn.None?
    ensures o.signedIn.Some? <==>
      && LoginErrors(c, body) == [] && EmailOf(body).Some? && EmailOf(body).value in Emails(db)
      && Field(body, "password").Str?
      && b.compare(body["password"].s, FindUserByEmail(db, EmailOf(body).value).value.passwordHash)
    ensures o.signedIn.Some? ==>
      && o.signedIn.value == ViewOf(FindUserByEmail(db, EmailOf(body).value).value)
      && o.response == (if saved then Response(200, Account(o.signedIn.value)) else SessionError)
  {
    var errs := LoginErrors(c, body);
    if errs != [] then AuthOutcome(db, BadRequest(errs), None)
    else if EmailOf(body).None? then AuthOutcome(db, ServerError, None)
    else
      var found := FindUserByEmail(db, EmailOf(body).value);
      if found.None? then AuthOutcome(db, InvalidCredentials, None)
      else if !Field(body, "password").Str? then AuthOutcome(db, ServerError, None)
      else if !b.compare(body["password"].s, found.value.passwordHash) then AuthOutcome(db, InvalidCredentials, None)
      else
        var user := ViewOf(found.value);
        AuthOutcome(db, if saved then Response(200, Account(user)) else SessionError, Some(user))
  }

  // ---------------------------------------------------------------- properties

  /** Registering a taken email changes nothing and signs nobody in. */
  lemma DuplicateEmailInsertsNothing(c: Checks, b: Bcrypt, db: Db, body: Body, saved: bool, u: User)
    requires RegisterErrors(c, body) == [] && u in db.users && Field(body, "email") == Str(u.email)
    ensures Register(c, b, db, body, saved) == AuthOutcome(db, Response(400, Message("Email already in use")), None)
  {
    assert u.email in Emails(db);
  }

  /** An unknown email and a wrong password cannot be told apart. */
  lemma InvalidCredentialsAreIdentical(c: Checks, b: Bcrypt, db: Db, unknown: Body, wrong: Body, saved: bool)
    requires LoginErrors(c, unknown) == [] && EmailOf(unknown).Some? && EmailOf(unknown).value !in Emails(db)
    requires LoginErrors(c, wrong) == [] && EmailOf(wrong).Some? && EmailOf(wrong).value in Emails(db)
    requires Field(wrong, "password").Str?
    requires !b.compare(wrong["password"].s, FindUserByEmail(db, EmailOf(wrong).value).value.passwordHash)
    ensures Login(c, b, db, unknown, saved) == Login(c, b, db, wrong, saved) == AuthOutcome(db, InvalidCredentials, None)
  {
  }

  /** Validation is decided before any lookup: an invalid body's answer does not depend on the database. */
  lemma ValidationComesFirst(c: Checks, b: Bcrypt, db1: Db, db2: Db, body: Body, saved: bool)
    ensures RegisterErrors(c, body) != [] ==>
      Register(c, b, db1, body, saved).response == Register(c, b, db2, body, saved).response
    ensures LoginErrors(c, body) != [] ==>
      Login(c, b, db1, body, saved).response == Login(c, b, db2, body, saved).response
  {
  }

  /** A registration keeps the schema's invariant. */
  lemma RegisterKeepsWellFormed(c: Checks, b: Bcrypt, db: Db, body: Body, saved: bool)
    requires WellFormed(db)
    ensures WellFormed(Register(c, b, db, body, saved).db)
  {
    if RegisterErrors(c, body) == [] && EmailOf(body).Some? && Field(body, "password").Str? {
      InsertUserKeepsWellFormed(db, EmailOf(body).value, b.hash(body["password"].s), AdminFlag(body));
    }
  }

  /**
   * Register then login: with a sound bcrypt, the credentials just registered sign the same
   * user in, and the session then passes the team handlers' check.
   */
  lemma RegisterThenLogin(c: Checks, b: Bcrypt, db: Db, body: Body, saved1: bool, saved2: bool)
    requires Sound(b) && WellFormed(db)
    requires Register(c, b, db, body, saved1).signedIn.Some?
    ensures var after := Register(c, b, db, body, saved1);
      && Login(c, b, after.db, body, saved2).signedIn == after.signedIn
      && TeamController.SignedIn(Some(after.signedIn.value.id))
  {
    var after := Register(c, b, db, body, saved1);
    var email := EmailOf(body).value;
    var u := User(db.nextUserId, email, b.hash(body["password"].s), AdminFlag(body).value);
    RegisterKeepsWellFormed(c, b, db, body, saved1);
    assert u in after.db.users;
    FindUserByEmailIsUnique(after.db, u);
    assert Passes(c.isEmail, Field(body, "email")) && "password" in body;
    assert b.compare(body["password"].s, u.passwordHash);
  }

  /** A user signed in by login has a stored id, which is never the falsy 0. */
  lemma LoginSignsInStoredUser(c: Checks, b: Bcrypt, db: Db, body: Body, saved: bool)
    requires WellFormed(db)
    requires Login(c, b, db, body, saved).signedIn.Some?
    ensures var v := Login(c, b, db, body, saved).signedIn.value;
      && (exists u :: u in db.users && ViewOf(u) == v && u.email == EmailOf(body).value)
      && TeamController.SignedIn(Some(v.id))
  {
    var u := FindUserByEmail(db, EmailOf(body).value).value;
    assert u in db.users;
  }

  // ---------------------------------------------------------------- against the Store and the session

  method RegisterUser(store: Store, session: Session, c: Checks, b: Bcrypt, body: Body, saved: bool)
    returns (resp: Response)
    requires store.Valid()
    modifies store, session
    ensures store.Valid()
    ensures var o := Register(c, b, old(store.Snapshot()), body, saved);
      && store.Snapshot() == o.db && resp == o.response
      && (o.signedIn.None? ==> unchanged(session))
      && (o.signedIn.Some? ==>
            session.userId == Some(o.signedIn.value.id) && session.userEmail == Some(o.signedIn.value.email)
            && session.isAdmin == Some(o.signedIn.value.isAdmin))
  {
    RegisterKeepsWellFormed(c, b, store.Snapshot(), body, saved);
    var errs := RegisterErrors(c, body);
    if errs != [] {
      return BadRequest(errs);
    }
    var email := EmailOf(body);
    if email.None? {
      return ServerError;
    }
    var existing := FindUserByEmail(store.Snapshot(), email.value);
    if existing.Some? {
      return Response(400, Message("Email already in use"));
    }
    var admin := AdminFlag(body);
    if !Field(body, "password").Str? || admin.None? {
      return ServerError;
    }
    var r := CreateUser(store, email.value, b.hash(body["password"].s), admin);
    if r.Err? {
      return ServerError;
    }
    session.userId, session.userEmail, session.isAdmin := Some(r.value.id), Some(r.value.email), Some(r.value.isAdmin);
    resp := if saved then Response(201, Account(r.value)) else SessionError;
  }

  method LoginUser(store: Store, session: Session, c: Checks, b: Bcrypt, body: Body, saved: bool)
    returns (resp: Response)
    modifies session
    ensures var o := Login(c, b, store.Snapshot(), body, saved);
      && resp == o.response
      && (o.signedIn.None? ==> unchanged(session))
      && (o.signedIn.Some? ==>
            session.userId == Some(o.signedIn.value.id) && session.userEmail == Some(o.signedIn.value.email)
            && session.isAdmin == Some(o.signedIn.value.isAdmin))
  {
    var errs := LoginErrors(c, body);
    if errs != [] {
      return BadRequest(errs);
    }
    var email := EmailOf(body);
    if email.None? {
      return ServerError;
    }
    var found := FindUserByEmail(store.Snapshot(), email.value);
    if found.None? {
      return InvalidCredentials;
    }
    if !Field(body, "password").Str? {
      return ServerError;
    }
    if !b.compare(body["password"].s, found.value.passwordHash) {
      return InvalidCredentials;
    }
    session.userId, session.userEmail, session.isAdmin := Some(found.value.id), Some(found.value.email), Some(found.value.isAdmin);
    resp := if saved then Response(200, Account(ViewOf(found.value))) else SessionError;
  }
}
