/** backend/models/user.js: the users table's two operations. */
module UserModel {
  import opened Wrappers
  import opened Rows
  import opened Schema
  import opened Database
  import opened Integrity

  /** The columns createUser's RETURNING clause selects: the password hash is not among them. */
  datatype UserView = UserView(id: int, email: string, isAdmin: bool)

  function ViewOf(u: User): UserView {
    UserView(u.id, u.email, u.isAdmin)
  }

  /**
   * INSERT INTO users (email, password_hash, is_admin) RETURNING id, email, is_admin.
   * An omitted is_admin is false. The serial sequence advances whether or not the
   * insert then trips the unique constraint on email.
   */
  function InsertUser(db: Db, email: string, passwordHash: string, isAdmin: Option<bool>): (r: Step<UserView>)
    ensures r.db.nextUserId == db.nextUserId + 1
    ensures r.db.(users := db.users, nextUserId := db.nextUserId) == db
    ensures r.out.Ok? <==> email !in Emails(db)
    ensures r.out.Err? ==> r.out.error == UniqueViolation && r.db.users == db.users
    ensures r.out.Ok? ==>
      && r.out.value == UserView(db.nextUserId, email, isAdmin == Some(true))
      && r.db.users == db.users + [User(db.nextUserId, email, passwordHash, isAdmin == Some(true))]
  {
    var db' := db.(nextUserId := db.nextUserId + 1);
    if email in Emails(db) then
      Step(db', Err(UniqueViolation))
    else
      var u := User(db.nextUserId, email, passwordHash, isAdmin.GetOr(false));
      Step(db'.(users := db.users + [u]), Ok(ViewOf(u)))
  }

  /** An insert keeps the schema's invariant and hands out an id no user had. */
  lemma InsertUserKeepsWellFormed(db: Db, email: string, passwordHash: string, isAdmin: Option<bool>)
    requires WellFormed(db)
    ensures WellFormed(InsertUser(db, email, passwordHash, isAdmin).db)
    ensures InsertUser(db, email, passwordHash, isAdmin).out.Ok? ==>
      InsertUser(db, email, passwordHash, isAdmin).out.value.id !in UserIds(db)
  {
    var r := InsertUser(db, email, passwordHash, isAdmin);
    if r.out.Ok? {
      AppendUserKeepsWellFormed(db, User(db.nextUserId, email, passwordHash, isAdmin == Some(true)));
      assert r.out.value.id !in UserIds(db);
    } else {
      SkipUserIdKeepsWellFormed(db);
    }
  }

  /** SELECT * FROM users WHERE email = e LIMIT 1: exact, case-sensitive comparison. */
  function FindUserByEmail(db: Db, email: string): (r: Option<User>)
    ensures r.Some? <==> email in Emails(db)
    ensures r.Some? ==> r.value in db.users && r.value.email == email
  {
    First(db.users, (u: User) => u.email == email)
  }

  /** Because emails are unique, the lookup finds THE user with that email. */
  lemma FindUserByEmailIsUnique(db: Db, u: User)
    requires WellFormed(db) && u in db.users
    ensures FindUserByEmail(db, u.email) == Some(u)
  {
    var found := FindUserByEmail(db, u.email).value;
    var i :| 0 <= i < |db.users| && db.users[i] == u;
    var j :| 0 <= j < |db.users| && db.users[j] == found;
  }

  /** createUser against the store. */
  method CreateUser(store: Store, email: string, passwordHash: string, isAdmin: Option<bool>)
    returns (r: Result<UserView, DbError>)
    requires store.Valid()
    modifies store
    ensures store.Valid()
    ensures Step(store.Snapshot(), r) == InsertUser(old(store.Snapshot()), email, passwordHash, isAdmin)
  {
    ghost var before := store.Snapshot();
    InsertUserKeepsWellFormed(before, email, passwordHash, isAdmin);
    var id := store.nextUserId;
    store.nextUserId := id + 1;
    if email in Emails(store.Snapshot()) {
      r := Err(UniqueViolation);
      return;
    }
    var admin := if isAdmin.Some? then isAdmin.value else false;
    store.users := store.users + [User(id, email, passwordHash, admin)];
    r := Ok(UserView(id, email, admin));
    assert store.Snapshot() == InsertUser(before, email, passwordHash, isAdmin).db;
    SameOkStep(Step(store.Snapshot(), r), InsertUser(before, email, passwordHash, isAdmin));
  }
}
