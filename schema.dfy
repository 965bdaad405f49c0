/**
 * The relational schema created by the initial migration: four tables (users, teams,
 * memberships, tasks), their keys and foreign keys, and the order in which the migration
 * creates and drops them. A database state is a `Db`: the rows of each table in storage
 * order, plus the next value of each table's serial id sequence.
 */
module Schema {
  import opened Wrappers
  import opened Rows

  /** A row of `users`; `passwordHash` is the bcrypt output, never the password. */
  datatype User = User(id: int, email: string, passwordHash: string, isAdmin: bool)

  /** A row of `teams`; `creator_id` is a nullable reference to users. */
  datatype Team = Team(id: int, name: string, creatorId: Option<int>)

  /** A row of `memberships`: the pair is the whole row and its primary key. */
  datatype Membership = Membership(userId: int, teamId: int)

  /** A row of `tasks`; title is NOT NULL, the other columns are nullable. */
  datatype Task = Task(
    id: int,
    title: string,
    description: Option<string>,
    dueDate: Option<string>,
    teamId: Option<int>,
    assignedTo: Option<int>)

  /** The whole database: the four tables and the next value of each serial sequence. */
  datatype Db = Db(
    users: seq<User>,
    teams: seq<Team>,
    memberships: seq<Membership>,
    tasks: seq<Task>,
    nextUserId: int,
    nextTeamId: int,
    nextTaskId: int)

  /** The constraint violations Postgres reports, plus knex's refusal of an empty update. */
  datatype DbError = UniqueViolation | ForeignKeyViolation | EmptyUpdate

  /** The effect of one statement: the database afterwards and what the statement returned. */
  datatype Step<R> = Step(db: Db, out: Result<R, DbError>)

  /** Two successful steps that leave the same database and return the same value are the same step. */
  lemma SameOkStep<R>(a: Step<R>, b: Step<R>)
    requires a.db == b.db && a.out.Ok? && b.out.Ok? && a.out.value == b.out.value
    ensures a == b
  {
  }

  /** The database right after the migrations ran: no rows, every serial starting at 1. */
  const Empty := Db([], [], [], [], 1, 1, 1)

  function UserIds(db: Db): set<int> { set u | u in db.users :: u.id }
  function Emails(db: Db): set<string> { set u | u in db.users :: u.email }
  function TeamIds(db: Db): set<int> { set t | t in db.teams :: t.id }
  function TaskIds(db: Db): set<int> { set k | k in db.tasks :: k.id }

  /**
   * Primary keys, the unique email, and the (user_id, team_id) primary key of memberships:
   * no row is stored twice, and two rows agreeing on a key are the same row.
   */
  ghost predicate KeysUnique(db: Db) {
    && (forall u :: multiset(db.users)[u] <= 1)
    && (forall a, b :: a in db.users && b in db.users && (a.id == b.id || a.email == b.email) ==> a == b)
    && (forall t :: multiset(db.teams)[t] <= 1)
    && (forall a, b :: a in db.teams && b in db.teams && a.id == b.id ==> a == b)
    && (forall m :: multiset(db.memberships)[m] <= 1)
    && (forall k :: multiset(db.tasks)[k] <= 1)
    && (forall a, b :: a in db.tasks && b in db.tasks && a.id == b.id ==> a == b)
  }

  /** Every non-null foreign key names an existing row. */
  ghost predicate ReferencesResolve(db: Db) {
    && (forall t :: t in db.teams && t.creatorId.Some? ==> t.creatorId.value in UserIds(db))
    && (forall m :: m in db.memberships ==> m.userId in UserIds(db) && m.teamId in TeamIds(db))
    && (forall k :: k in db.tasks && k.teamId.Some? ==> k.teamId.value in TeamIds(db))
    && (forall k :: k in db.tasks && k.assignedTo.Some? ==> k.assignedTo.value in UserIds(db))
  }

  /** Serial ids start at 1 and every id handed out lies below the sequence's next value. */
  ghost predicate SerialsAhead(db: Db) {
    && 1 <= db.nextUserId && 1 <= db.nextTeamId && 1 <= db.nextTaskId
    && (forall u :: u in db.users ==> 1 <= u.id < db.nextUserId)
    && (forall t :: t in db.teams ==> 1 <= t.id < db.nextTeamId)
    && (forall k :: k in db.tasks ==> 1 <= k.id < db.nextTaskId)
  }

  /** The user whose primary key is `id`, as a join on users.id finds it. */
  function UserWithId(users: seq<User>, id: int): (r: Option<User>)
    ensures r.Some? <==> exists u :: u in users && u.id == id
    ensures r.Some? ==> r.value in users && r.value.id == id
  {
    First(users, (u: User) => u.id == id)
  }

  /** The team whose primary key is `id`, as a join on teams.id finds it. */
  function TeamWithId(teams: seq<Team>, id: int): (r: Option<Team>)
    ensures r.Some? <==> exists t :: t in teams && t.id == id
    ensures r.Some? ==> r.value in teams && r.value.id == id
  {
    First(teams, (t: Team) => t.id == id)
  }

  /** The invariant the schema's constraints maintain. */
  ghost predicate WellFormed(db: Db) {
    KeysUnique(db) && ReferencesResolve(db) && SerialsAhead(db)
  }

  /** The migrations leave a well-formed, empty database. */
  lemma EmptyWellFormed()
    ensures WellFormed(Empty) && UserIds(Empty) == {} && TeamIds(Empty) == {}
  {
  }

  // ---- Tables and foreign keys as declared by the migrations ----

  datatype Table = UsersTable | TeamsTable | MembershipsTable | TasksTable

  /** What happens to referencing rows when the referenced row is deleted. */
  datatype OnDelete = NoAction | Cascade

  datatype ForeignKey = ForeignKey(from: Table, column: string, to: Table, onDelete: OnDelete)

  /** The five foreign keys of the initial migration, none of them cascading. */
  const InitialForeignKeys: seq<ForeignKey> := [
    ForeignKey(TeamsTable, "creator_id", UsersTable, NoAction),
    ForeignKey(MembershipsTable, "user_id", UsersTable, NoAction),
    ForeignKey(MembershipsTable, "team_id", TeamsTable, NoAction),
    ForeignKey(TasksTable, "team_id", TeamsTable, NoAction),
    ForeignKey(TasksTable, "assigned_to", UsersTable, NoAction)
  ]

  /** `up` creates the tables in this order ... */
  const CreateOrder: seq<Table> := [UsersTable, TeamsTable, MembershipsTable, TasksTable]
  /** ... and `down` drops them in this one. */
  const DropOrder: seq<Table> := [TasksTable, MembershipsTable, TeamsTable, UsersTable]

  function IndexOf(order: seq<Table>, t: Table): (i: nat)
    requires t in order
    ensures i < |order| && order[i] == t
    ensures forall j :: 0 <= j < i ==> order[j] != t
  {
    if order[0] == t then 0 else 1 + IndexOf(order[1..], t)
  }

  /** Every table is created after each table its foreign keys point to. */
  ghost predicate CreatesTargetsFirst(order: seq<Table>, fks: seq<ForeignKey>) {
    forall fk :: fk in fks ==>
      fk.from in order && fk.to in order && IndexOf(order, fk.to) < IndexOf(order, fk.from)
  }

  /** Every table is dropped before each table its foreign keys point to. */
  ghost predicate DropsReferrersFirst(order: seq<Table>, fks: seq<ForeignKey>) {
    forall fk :: fk in fks ==>
      fk.from in order && fk.to in order && IndexOf(order, fk.from) < IndexOf(order, fk.to)
  }

  /** `up` never references a table that does not exist yet and `down` never drops a referenced table. */
  lemma MigrationOrderRespectsReferences()
    ensures CreatesTargetsFirst(CreateOrder, InitialForeignKeys)
    ensures DropsReferrersFirst(DropOrder, InitialForeignKeys)
    ensures forall i :: 0 <= i < |DropOrder| ==> DropOrder[i] == CreateOrder[|CreateOrder| - 1 - i]
  {
    CreateOrderPositions();
    DropOrderPositions();
    forall fk | fk in InitialForeignKeys
      ensures fk.from in CreateOrder && fk.to in CreateOrder
      ensures IndexOf(CreateOrder, fk.to) < IndexOf(CreateOrder, fk.from)
      ensures IndexOf(DropOrder, fk.from) < IndexOf(DropOrder, fk.to)
    {
    }
  }

  lemma CreateOrderPositions()
    ensures IndexOf(CreateOrder, UsersTable) == 0 && IndexOf(CreateOrder, TeamsTable) == 1
    ensures IndexOf(CreateOrder, MembershipsTable) == 2 && IndexOf(CreateOrder, TasksTable) == 3
  {
  }

  lemma DropOrderPositions()
    ensures IndexOf(DropOrder, TasksTable) == 0 && IndexOf(DropOrder, MembershipsTable) == 1
    ensures IndexOf(DropOrder, TeamsTable) == 2 && IndexOf(DropOrder, UsersTable) == 3
  {
  }
}
