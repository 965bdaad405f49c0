/**
 * backend/models/teams.js: teams and memberships. Every query is a function of the database
 * value; every statement that writes is a pure step function, together with a method on the
 * Store proved to perform the same writes.
 */
module TeamModel {
  import opened Wrappers
  import opened Rows
  import opened Schema
  import opened Database
  import opened Integrity

  /** A row of `teams.*` together with `users.email AS creator_email`. */
  datatype TeamRow = TeamRow(team: Team, creatorEmail: Option<string>)

  /** A row of getTeamMembers: users.id and users.email. */
  datatype MemberRow = MemberRow(id: int, email: string)

  /** One team row of LEFT JOIN users ON teams.creator_id = users.id. */
  function RowOf(db: Db, t: Team): (r: TeamRow)
    ensures r.team == t
    ensures r.creatorEmail.Some? <==> t.creatorId.Some? && t.creatorId.value in UserIds(db)
    ensures r.creatorEmail.Some? ==>
      exists u :: u in db.users && Some(u.id) == t.creatorId && u.email == r.creatorEmail.value
  {
    var creator := if t.creatorId.Some? then UserWithId(db.users, t.creatorId.value) else None;
    TeamRow(t, if creator.Some? then Some(creator.value.email) else None)
  }

  /** getAllTeams: every team exactly once, in table order, with its creator's email. */
  function AllTeams(db: Db): (rows: seq<TeamRow>)
    ensures |rows| == |db.teams|
    ensures forall i :: 0 <= i < |rows| ==> rows[i] == RowOf(db, db.teams[i])
  {
    seq(|db.teams|, i requires 0 <= i < |db.teams| => RowOf(db, db.teams[i]))
  }

  /** getTeamById: the team with that id and its creator's email, or nothing. */
  function TeamById(db: Db, id: int): (r: Option<TeamRow>)
    ensures r.Some? <==> id in TeamIds(db)
    ensures r.Some? ==> r.value.team in db.teams && r.value.team.id == id
    ensures r.Some? ==> r.value == RowOf(db, r.value.team)
  {
    var t := TeamWithId(db.teams, id);
    if t.Some? then Some(RowOf(db, t.value)) else None
  }

  // ---------------------------------------------------------------- createTeam

  /**
   * INSERT INTO teams (name, creator_id) RETURNING id, name, creator_id. The serial advances
   * even when the foreign key on creator_id then rejects the row.
   */
  function InsertTeam(db: Db, name: string, creatorId: int): (r: Step<Team>)
    ensures r.db.nextTeamId == db.nextTeamId + 1
    ensures r.db.(teams := db.teams, nextTeamId := db.nextTeamId) == db
    ensures r.out.Ok? <==> creatorId in UserIds(db)
    ensures r.out.Err? ==> r.out.error == ForeignKeyViolation && r.db.teams == db.teams
    ensures r.out.Ok? ==>
      && r.out.value == Team(db.nextTeamId, name, Some(creatorId))
      && r.db.teams == db.teams + [r.out.value]
  {
    var db' := db.(nextTeamId := db.nextTeamId + 1);
    if creatorId in UserIds(db) then
      var t := Team(db.nextTeamId, name, Some(creatorId));
      Step(db'.(teams := db.teams + [t]), Ok(t))
    else
      Step(db', Err(ForeignKeyViolation))
  }

  /** createTeam keeps the invariant and the new team's id was not in use. */
  lemma InsertTeamKeepsWellFormed(db: Db, name: string, creatorId: int)
    requires WellFormed(db)
    ensures WellFormed(InsertTeam(db, name, creatorId).db)
    ensures InsertTeam(db, name, creatorId).out.Ok? ==>
      InsertTeam(db, name, creatorId).out.value.id !in TeamIds(db)
  {
    var r := InsertTeam(db, name, creatorId);
    if r.out.Ok? {
      var t := r.out.value;
      assert t !in db.teams;
      assert forall x :: multiset(r.db.teams)[x] == multiset(db.teams)[x] + (if x == t then 1 else 0);
      assert TeamIds(r.db) == TeamIds(db) + {t.id};
    }
  }

  method CreateTeam(store: Store, name: string, creatorId: int) returns (r: Result<Team, DbError>)
    requires store.Valid()
    modifies store
    ensures store.Valid()
    ensures Step(store.Snapshot(), r) == InsertTeam(old(store.Snapshot()), name, creatorId)
  {
    InsertTeamKeepsWellFormed(store.Snapshot(), name, creatorId);
    var id := store.nextTeamId;
    store.nextTeamId := id + 1;
    if creatorId !in UserIds(store.Snapshot()) {
      r := Err(ForeignKeyViolation);
      return;
    }
    var t := Team(id, name, Some(creatorId));
    store.teams := store.teams + [t];
    r := Ok(t);
  }

  // ---------------------------------------------------------------- updateTeam

  /** The teams table after SET name = `name` WHERE id = `id`. */
  function Renamed(teams: seq<Team>, id: int, name: string): (r: seq<Team>)
    ensures |r| == |teams|
    ensures forall i :: 0 <= i < |r| ==> r[i].id == teams[i].id && r[i].creatorId == teams[i].creatorId
    ensures forall i :: 0 <= i < |r| ==> r[i].name == if teams[i].id == id then name else teams[i].name
  {
    seq(|teams|, i requires 0 <= i < |teams| => if teams[i].id == id then teams[i].(name := name) else teams[i])
  }

  function HasTeamId(id: int): Team -> bool {
    (t: Team) => t.id == id
  }

  /** UPDATE teams SET name WHERE id RETURNING id, name, creator_id: the returned rows are the updated ones. */
  function RenameTeam(db: Db, id: int, name: string): (r: Step<seq<Team>>)
    ensures r.out.Ok? && r.db.(teams := db.teams) == db
    ensures |r.db.teams| == |db.teams|
    ensures forall i :: 0 <= i < |db.teams| && db.teams[i].id != id ==> r.db.teams[i] == db.teams[i]
    ensures forall i :: 0 <= i < |db.teams| && db.teams[i].id == id ==> r.db.teams[i] == db.teams[i].(name := name)
    ensures forall t :: t in r.out.value <==> t in r.db.teams && t.id == id
    ensures r.out.value == [] <==> id !in TeamIds(db)
  {
    var ts := Renamed(db.teams, id, name);
    assert (exists t :: t in ts && t.id == id) <==> id in TeamIds(db) by {
      if id in TeamIds(db) {
        var i :| 0 <= i < |db.teams| && db.teams[i].id == id;
        assert ts[i] in ts;
      }
    }
    Step(db.(teams := ts), Ok(Filter(ts, HasTeamId(id))))
  }

  /** Renaming changes no key and no reference, so it keeps the invariant. */
  lemma RenameTeamKeepsWellFormed(db: Db, id: int, name: string)
    requires WellFormed(db)
    ensures WellFormed(RenameTeam(db, id, name).db)
  {
    UpdateTeamsKeepsWellFormed(db, Renamed(db.teams, id, name));
  }

  /** On an existing id, updateTeam returns exactly that team, renamed. */
  lemma RenameTeamReturnsRenamed(db: Db, t: Team, name: string)
    requires WellFormed(db) && t in db.teams
    ensures RenameTeam(db, t.id, name).out.value == [t.(name := name)]
  {
    RenameTeamKeepsWellFormed(db, t.id, name);
    var ts := RenameTeam(db, t.id, name).db.teams;
    var i :| 0 <= i < |db.teams| && db.teams[i] == t;
    assert ts[i] == t.(name := name);
    FilterSelectsOne(ts, HasTeamId(t.id), t.(name := name));
  }

  method UpdateTeam(store: Store, id: int, name: string) returns (r: seq<Team>)
    requires store.Valid()
    modifies store
    ensures store.Valid()
    ensures Step(store.Snapshot(), Ok(r)) == RenameTeam(old(store.Snapshot()), id, name)
  {
    RenameTeamKeepsWellFormed(store.Snapshot(), id, name);
    store.teams := Renamed(store.teams, id, name);
    r := Filter(store.teams, HasTeamId(id));
  }

  // ---------------------------------------------------------------- deleteTeam

  function NotInTeam(id: int): Membership -> bool {
    (m: Membership) => m.teamId != id
  }

  function NotOfTeam(id: int): Task -> bool {
    (k: Task) => k.teamId != Some(id)
  }

  function NotTeam(id: int): Team -> bool {
    (t: Team) => t.id != id
  }

  /**
   * deleteTeam's transaction: DELETE the team's memberships, then its tasks, then the team
   * row; the result is the number of team rows deleted.
   */
  function RemoveTeam(db: Db, id: int): (r: Step<nat>)
    ensures r.out.Ok?
    ensures forall m :: m in r.db.memberships <==> m in db.memberships && m.teamId != id
    ensures forall k :: k in r.db.tasks <==> k in db.tasks && k.teamId != Some(id)
    ensures forall t :: t in r.db.teams <==> t in db.teams && t.id != id
    ensures r.db.(teams := db.teams, memberships := db.memberships, tasks := db.tasks) == db
    ensures r.out.value == |db.teams| - |r.db.teams|
  {
    var noMembers := db.(memberships := Filter(db.memberships, NotInTeam(id)));
    var noTasks := noMembers.(tasks := Filter(db.tasks, NotOfTeam(id)));
    var noTeam := noTasks.(teams := Filter(db.teams, NotTeam(id)));
    Step(noTeam, Ok(|db.teams| - |noTeam.teams|))
  }

  /**
   * Deleting team `id` removes one team row if it existed and none otherwise, keeps the
   * invariant, and leaves the database untouched when no team had that id.
   */
  lemma DeleteTeamCascades(db: Db, id: int)
    requires WellFormed(db)
    ensures WellFormed(RemoveTeam(db, id).db)
    ensures RemoveTeam(db, id).out.value == if id in TeamIds(db) then 1 else 0
    ensures id !in TeamIds(db) ==> RemoveTeam(db, id).db == db
  {
    DeleteTeamStepsKeepWellFormed(db, id);
    DeleteTeamCount(db, id);
    if id !in TeamIds(db) {
      DeleteAbsentTeamChangesNothing(db, id);
    }
  }

  /** Each of the three deletes leaves no foreign key dangling. */
  lemma DeleteTeamStepsKeepWellFormed(db: Db, id: int)
    requires WellFormed(db)
    ensures WellFormed(db.(memberships := Filter(db.memberships, NotInTeam(id))))
    ensures WellFormed(db.(memberships := Filter(db.memberships, NotInTeam(id)),
                           tasks := Filter(db.tasks, NotOfTeam(id))))
    ensures WellFormed(RemoveTeam(db, id).db)
  {
    DeleteMembershipsKeepsWellFormed(db, NotInTeam(id));
    var db1 := db.(memberships := Filter(db.memberships, NotInTeam(id)));
    DeleteTasksKeepsWellFormed(db1, NotOfTeam(id));
    var db2 := db1.(tasks := Filter(db.tasks, NotOfTeam(id)));
    DeleteTeamsKeepsWellFormed(db2, NotTeam(id));
  }

  /** Team ids are unique, so the last delete removes at most the one row with that id. */
  lemma DeleteTeamCount(db: Db, id: int)
    requires WellFormed(db)
    ensures RemoveTeam(db, id).out.value == if id in TeamIds(db) then 1 else 0
  {
    FilterDropsAtMostOne(db.teams, NotTeam(id));
    assert (exists t :: t in db.teams && !NotTeam(id)(t)) <==> id in TeamIds(db);
  }

  /** When no team has that id, no row matches any of the three deletes. */
  lemma DeleteAbsentTeamChangesNothing(db: Db, id: int)
    requires WellFormed(db) && id !in TeamIds(db)
    ensures RemoveTeam(db, id).db == db
  {
    forall i | 0 <= i < |db.memberships| ensures NotInTeam(id)(db.memberships[i]) {
      assert db.memberships[i] in db.memberships;
    }
    forall i | 0 <= i < |db.tasks| ensures NotOfTeam(id)(db.tasks[i]) {
      assert db.tasks[i] in db.tasks;
    }
    forall i | 0 <= i < |db.teams| ensures NotTeam(id)(db.teams[i]) {
      assert db.teams[i] in db.teams;
    }
  }

  method DeleteTeam(store: Store, id: int) returns (deleted: nat)
    requires store.Valid()
    modifies store
    ensures store.Valid()
    ensures Step(store.Snapshot(), Ok(deleted)) == RemoveTeam(old(store.Snapshot()), id)
  {
    ghost var before := store.Snapshot();
    DeleteMembershipsOfTeam(store, id);
    DeleteTasksOfTeam(store, id);
    deleted := DeleteTeamItself(store, id);
    RemoveTeamAsStatements(before, id);
    SameOkStep(Step(store.Snapshot(), Ok(deleted)), RemoveTeam(before, id));
    DeleteTeamCascades(before, id);
  }

  /** deleteTeam's first statement: DELETE FROM memberships WHERE team_id = `id`. */
  method DeleteMembershipsOfTeam(store: Store, id: int)
    modifies store
    ensures store.Snapshot() == old(store.Snapshot()).(memberships := Filter(old(store.memberships), NotInTeam(id)))
  {
    store.memberships := Filter(store.memberships, NotInTeam(id));
  }

  /** deleteTeam's second statement: DELETE FROM tasks WHERE team_id = `id`. */
  method DeleteTasksOfTeam(store: Store, id: int)
    modifies store
    ensures store.Snapshot() == old(store.Snapshot()).(tasks := Filter(old(store.tasks), NotOfTeam(id)))
  {
    store.tasks := Filter(store.tasks, NotOfTeam(id));
  }

  /** deleteTeam's last statement: DELETE FROM teams WHERE id = `id`, returning the count. */
  method DeleteTeamItself(store: Store, id: int) returns (deleted: nat)
    modifies store
    ensures store.Snapshot() == old(store.Snapshot()).(teams := Filter(old(store.teams), NotTeam(id)))
    ensures deleted == |old(store.teams)| - |store.teams|
  {
    var ts := Filter(store.teams, NotTeam(id));
    deleted := |store.teams| - |ts|;
    store.teams := ts;
  }

  /** RemoveTeam spelled out as the three filtered tables and the count of the last delete. */
  lemma RemoveTeamAsStatements(db: Db, id: int)
    ensures RemoveTeam(db, id).db == db.(memberships := Filter(db.memberships, NotInTeam(id)),
      tasks := Filter(db.tasks, NotOfTeam(id)), teams := Filter(db.teams, NotTeam(id)))
    ensures RemoveTeam(db, id).out.Ok?
    ensures RemoveTeam(db, id).out.value == |db.teams| - |Filter(db.teams, NotTeam(id))|
  {
  }

  // ---------------------------------------------------------------- getUserTeams

  function InTeam(teamId: int): Membership -> bool {
    (m: Membership) => m.teamId == teamId
  }

  /** The membership rows of team `teamId`, in table order. */
  function MembersOf(db: Db, teamId: int): (ms: seq<Membership>)
    ensures forall m :: m in ms <==> m in db.memberships && m.teamId == teamId
  {
    Filter(db.memberships, InTeam(teamId))
  }

  function Joined(ms: seq<Membership>): (joined: seq<Option<Membership>>)
    ensures |joined| == |ms|
  {
    if ms == [] then [] else [Some(ms[0])] + Joined(ms[1..])
  }

  /**
   * LEFT JOIN memberships ON teams.id = memberships.team_id for one team: one joined row per
   * membership of the team, or a single row of NULLs when the team has none.
   */
  function JoinedMemberships(db: Db, t: Team): (joined: seq<Option<Membership>>)
    ensures |joined| == if MembersOf(db, t.id) == [] then 1 else |MembersOf(db, t.id)|
  {
    var ms := MembersOf(db, t.id);
    if ms == [] then [None] else Joined(ms)
  }

  /** The joined rows whose memberships.user_id equals `u`; a NULL equals nothing. */
  function Hits(joined: seq<Option<Membership>>, u: int): nat {
    if joined == [] then 0
    else (if joined[0].Some? && joined[0].value.userId == u then 1 else 0) + Hits(joined[1..], u)
  }

  /**
   * WHERE memberships.user_id = u OR teams.creator_id = u over one team's joined rows: the
   * team's row once for every joined row that passes.
   */
  function WhereMemberOrCreator(row: TeamRow, joined: seq<Option<Membership>>, u: int): (rows: seq<TeamRow>)
    ensures forall r :: r in rows ==> r == row
    ensures |rows| == if row.team.creatorId == Some(u) then |joined| else Hits(joined, u)
  {
    if joined == [] then []
    else
      var pass := (joined[0].Some? && joined[0].value.userId == u) || row.team.creatorId == Some(u);
      (if pass then [row] else []) + WhereMemberOrCreator(row, joined[1..], u)
  }

  /** The rows a query emits, team after team in table order, `block` giving each team's rows. */
  function PerTeam(teams: seq<Team>, block: Team -> seq<TeamRow>): seq<TeamRow> {
    if teams == [] then [] else block(teams[0]) + PerTeam(teams[1..], block)
  }

  /** What getUserTeams emits for one team: the WHERE applied to the team's joined rows. */
  function AsWritten(db: Db, u: int): Team -> seq<TeamRow> {
    (t: Team) => WhereMemberOrCreator(RowOf(db, t), JoinedMemberships(db, t), u)
  }

  /** getUserTeams as written: teams LEFT JOIN memberships LEFT JOIN users, filtered by the WHERE. */
  function UserTeams(db: Db, u: int): seq<TeamRow> {
    PerTeam(db.teams, AsWritten(db, u))
  }

  /** How many rows of `rows` belong to team `id`. */
  function Occurrences(rows: seq<TeamRow>, id: int): nat {
    if rows == [] then 0 else (if rows[0].team.id == id then 1 else 0) + Occurrences(rows[1..], id)
  }

  lemma {:induction false} OccurrencesAppend(a: seq<TeamRow>, b: seq<TeamRow>, id: int)
    ensures Occurrences(a + b, id) == Occurrences(a, id) + Occurrences(b, id)
  {
    if a == [] {
      assert a + b == b;
    } else {
      assert (a + b)[1..] == a[1..] + b;
      OccurrencesAppend(a[1..], b, id);
    }
  }

  lemma {:induction false} OccurrencesOfOneTeam(rows: seq<TeamRow>, tid: int, id: int)
    requires forall r :: r in rows ==> r.team.id == tid
    ensures Occurrences(rows, id) == if tid == id then |rows| else 0
  {
    if rows != [] {
      assert rows[0] in rows;
      assert forall r :: r in rows[1..] ==> r in rows;
      OccurrencesOfOneTeam(rows[1..], tid, id);
    }
  }

  /** Every row a block emits belongs to the team it was emitted for. */
  ghost predicate Blocks(block: Team -> seq<TeamRow>) {
    forall t, r :: r in block(t) ==> r.team == t
  }

  lemma {:induction false} PerTeamAbsent(teams: seq<Team>, block: Team -> seq<TeamRow>, id: int)
    requires Blocks(block)
    requires forall t :: t in teams ==> t.id != id
    ensures Occurrences(PerTeam(teams, block), id) == 0
  {
    if teams != [] {
      assert teams[0] in teams;
      assert forall t :: t in teams[1..] ==> t in teams;
      OccurrencesAppend(block(teams[0]), PerTeam(teams[1..], block), id);
      OccurrencesOfOneTeam(block(teams[0]), teams[0].id, id);
      PerTeamAbsent(teams[1..], block, id);
    }
  }

  /** With team ids unique, a team's rows in a per-team query are exactly its own block. */
  lemma {:induction false} PerTeamPresent(teams: seq<Team>, block: Team -> seq<TeamRow>, t: Team)
    requires Blocks(block)
    requires forall x :: x in teams && x.id == t.id ==> x == t
    requires multiset(teams)[t] == 1
    ensures Occurrences(PerTeam(teams, block), t.id) == |block(t)|
  {
    var rest := teams[1..];
    assert teams == [teams[0]] + rest;
    assert forall x :: x in rest ==> x in teams;
    OccurrencesAppend(block(teams[0]), PerTeam(rest, block), t.id);
    OccurrencesOfOneTeam(block(teams[0]), teams[0].id, t.id);
    if teams[0] == t {
      assert multiset(rest)[t] == 0;
      PerTeamAbsent(rest, block, t.id);
    } else {
      assert teams[0] in teams;
      PerTeamPresent(rest, block, t);
    }
  }

  lemma {:induction false} HitsOfMembers(ms: seq<Membership>, teamId: int, u: int)
    requires forall m :: m in ms ==> m.teamId == teamId
    ensures Hits(Joined(ms), u) == multiset(ms)[Membership(u, teamId)]
  {
    if ms != [] {
      assert ms == [ms[0]] + ms[1..];
      assert Joined(ms)[1..] == Joined(ms[1..]);
      assert forall m :: m in ms[1..] ==> m in ms;
      assert ms[0] in ms;
      HitsOfMembers(ms[1..], teamId, u);
    }
  }

  /** With (user_id, team_id) a key, a team's joined rows hold user `u` at most once. */
  lemma JoinedHitsOnce(db: Db, t: Team, u: int)
    requires KeysUnique(db)
    ensures Hits(JoinedMemberships(db, t), u) == if Membership(u, t.id) in db.memberships then 1 else 0
  {
    var ms := MembersOf(db, t.id);
    if ms != [] {
      HitsOfMembers(ms, t.id, u);
      assert multiset(db.memberships)[Membership(u, t.id)] <= 1;
    } else {
      assert Membership(u, t.id) !in ms;
    }
  }

  /**
   * getUserTeams as written returns a team created by `u` once per membership row of that
   * team (once if it has none), a team `u` merely belongs to once, and no other team.
   */
  lemma UserTeamsMultiplicity(db: Db, u: int, t: Team)
    requires WellFormed(db) && t in db.teams
    ensures Occurrences(UserTeams(db, u), t.id) ==
      if t.creatorId == Some(u) then (if MembersOf(db, t.id) == [] then 1 else |MembersOf(db, t.id)|)
      else if Membership(u, t.id) in db.memberships then 1
      else 0
  {
    TeamRowIsUnique(db, t);
    JoinedHitsOnce(db, t, u);
    CountAsWritten(db, u, t);
  }

  /** With team ids a key, a stored team is stored once and is the only one with its id. */
  lemma TeamRowIsUnique(db: Db, t: Team)
    requires KeysUnique(db) && t in db.teams
    ensures multiset(db.teams)[t] == 1
    ensures forall x :: x in db.teams && x.id == t.id ==> x == t
  {
  }

  /** The count behind UserTeamsMultiplicity, from just the key facts it needs. */
  lemma CountAsWritten(db: Db, u: int, t: Team)
    requires multiset(db.teams)[t] == 1
    requires forall x :: x in db.teams && x.id == t.id ==> x == t
    requires Hits(JoinedMemberships(db, t), u) == if Membership(u, t.id) in db.memberships then 1 else 0
    ensures Occurrences(UserTeams(db, u), t.id) ==
      if t.creatorId == Some(u) then (if MembersOf(db, t.id) == [] then 1 else |MembersOf(db, t.id)|)
      else if Membership(u, t.id) in db.memberships then 1
      else 0
  {
    var block := AsWritten(db, u);
    assert Blocks(block);
    PerTeamPresent(db.teams, block, t);
  }

  /** A user belongs to a team when they created it or hold a membership in it. */
  predicate BelongsTo(db: Db, t: Team, u: int) {
    t.creatorId == Some(u) || Membership(u, t.id) in db.memberships
  }

  function Distinct(db: Db, u: int): Team -> seq<TeamRow> {
    (t: Team) => if BelongsTo(db, t, u) then [RowOf(db, t)] else []
  }

  /** getUserTeams as evidently intended: each team the user belongs to, once. */
  function UserTeamsDistinct(db: Db, u: int): seq<TeamRow> {
    PerTeam(db.teams, Distinct(db, u))
  }

  /** The intended query lists every team the user belongs to exactly once, and no other. */
  lemma UserTeamsDistinctOnce(db: Db, u: int, t: Team)
    requires WellFormed(db) && t in db.teams
    ensures Occurrences(UserTeamsDistinct(db, u), t.id) == if BelongsTo(db, t, u) then 1 else 0
  {
    assert Blocks(Distinct(db, u));
    PerTeamPresent(db.teams, Distinct(db, u), t);
  }

  /** On a team a user belongs to, the query as written agrees with the intended one unless they created a team with two or more members. */
  lemma UserTeamsAgreeUnlessCreatorWithMembers(db: Db, u: int, t: Team)
    requires WellFormed(db) && t in db.teams
    requires !(t.creatorId == Some(u) && |MembersOf(db, t.id)| >= 2)
    ensures Occurrences(UserTeams(db, u), t.id) == Occurrences(UserTeamsDistinct(db, u), t.id)
  {
    UserTeamsMultiplicity(db, u, t);
    UserTeamsDistinctOnce(db, u, t);
  }

  /** Three users; the first created team 1, the other two are its members. */
  const Sample: Db := Db([User(1, "a", "", true), User(2, "b", "", false), User(3, "c", "", false)],
                         [Team(1, "Alpha", Some(1))], [Membership(2, 1), Membership(3, 1)], [], 4, 2, 1)

  lemma SampleKeysUnique()
    ensures KeysUnique(Sample)
  {
    SampleUsersUnique();
    SampleMembershipsUnique();
    NoDuplicatesIffSingletons(Sample.teams);
    NoDuplicatesIffSingletons(Sample.tasks);
  }

  lemma SampleUsersUnique()
    ensures forall u :: multiset(Sample.users)[u] <= 1
    ensures forall a, b :: a in Sample.users && b in Sample.users && (a.id == b.id || a.email == b.email) ==> a == b
  {
    NoDuplicatesIffSingletons(Sample.users);
  }

  lemma SampleMembershipsUnique()
    ensures forall m :: multiset(Sample.memberships)[m] <= 1
  {
    NoDuplicatesIffSingletons(Sample.memberships);
  }

  lemma SampleWellFormed()
    ensures WellFormed(Sample)
  {
    SampleKeysUnique();
    assert UserIds(Sample) == {1, 2, 3} && TeamIds(Sample) == {1};
  }

  /**
   * A creator whose team has two other members gets that team twice from getUserTeams as
   * written, and once from the intended query.
   */
  lemma UserTeamsRepeatsCreatedTeam()
    ensures WellFormed(Sample)
    ensures Occurrences(UserTeams(Sample, 1), 1) == 2
    ensures Occurrences(UserTeamsDistinct(Sample, 1), 1) == 1
  {
    SampleWellFormed();
    SampleCreatorSeesTeamTwice();
    SampleCreatorSeesTeamOnce();
  }

  lemma SampleCreatorSeesTeamTwice()
    requires WellFormed(Sample)
    ensures Occurrences(UserTeams(Sample, 1), 1) == 2
  {
    assert MembersOf(Sample, 1) == Sample.memberships;
    UserTeamsMultiplicity(Sample, 1, Sample.teams[0]);
  }

  lemma SampleCreatorSeesTeamOnce()
    requires WellFormed(Sample)
    ensures Occurrences(UserTeamsDistinct(Sample, 1), 1) == 1
  {
    UserTeamsDistinctOnce(Sample, 1, Sample.teams[0]);
  }

  // ---------------------------------------------------------------- getTeamMembers

  function HasUserId(id: int): User -> bool {
    (x: User) => x.id == id
  }

  /** users.id and users.email of each user row. */
  function Accounts(users: seq<User>): (rows: seq<MemberRow>)
    ensures forall r :: r in rows <==> exists x :: x in users && r == MemberRow(x.id, x.email)
  {
    if users == [] then [] else [MemberRow(users[0].id, users[0].email)] + Accounts(users[1..])
  }

  /** memberships JOIN users ON memberships.user_id = users.id over the given membership rows. */
  function MembersJoin(db: Db, ms: seq<Membership>): (rows: seq<MemberRow>)
    ensures forall r :: r in rows ==> exists m, x :: m in ms && x in db.users && m.userId == x.id && r == MemberRow(x.id, x.email)
    ensures forall m, x :: m in ms && x in db.users && m.userId == x.id ==> MemberRow(x.id, x.email) in rows
  {
    if ms == [] then []
    else Accounts(Filter(db.users, HasUserId(ms[0].userId))) + MembersJoin(db, ms[1..])
  }

  /**
   * getTeamMembers: the id and email of every user with a membership in the team, and of no
   * one else.
   */
  function TeamMembers(db: Db, teamId: int): (rows: seq<MemberRow>)
    ensures forall r :: r in rows ==>
      Membership(r.id, teamId) in db.memberships && exists x :: x in db.users && r == MemberRow(x.id, x.email)
    ensures forall x :: x in db.users && Membership(x.id, teamId) in db.memberships ==> MemberRow(x.id, x.email) in rows
  {
    MembersJoin(db, MembersOf(db, teamId))
  }

  // ---------------------------------------------------------------- addTeamMembers

  /** userIds.map(userId => ({ team_id, user_id })). */
  function NewMemberships(teamId: int, userIds: seq<int>): (rows: seq<Membership>)
    ensures |rows| == |userIds|
    ensures forall i :: 0 <= i < |rows| ==> rows[i] == Membership(userIds[i], teamId)
    ensures forall m :: m in rows <==> m.teamId == teamId && m.userId in userIds
  {
    seq(|userIds|, i requires 0 <= i < |userIds| => Membership(userIds[i], teamId))
  }

  /**
   * INSERT INTO memberships of one row per user id, as a single statement: it fails as a whole
   * with a unique violation when a pair exists already or repeats within the batch, otherwise
   * with a foreign-key violation when a user or the team does not exist. The result is the
   * number of rows inserted.
   */
  function InsertMemberships(db: Db, teamId: int, userIds: seq<int>): (r: Step<nat>)
    ensures r.db.(memberships := db.memberships) == db
    ensures r.out.Err? ==> r.db == db
    ensures r.out.Ok? ==> r.db.memberships == db.memberships + NewMemberships(teamId, userIds) && r.out.value == |userIds|
    ensures r.out.Ok? <==>
      && (forall i :: 0 <= i < |userIds| ==> Membership(userIds[i], teamId) !in db.memberships && userIds[i] in UserIds(db))
      && (forall i, j :: 0 <= i < j < |userIds| ==> userIds[i] != userIds[j])
      && (userIds != [] ==> teamId in TeamIds(db))
    ensures (exists i :: 0 <= i < |userIds| && Membership(userIds[i], teamId) in db.memberships) ==>
      r.out == Err(UniqueViolation)
  {
    var rows := NewMemberships(teamId, userIds);
    NewMembershipsDistinct(teamId, userIds);
    if (exists i :: 0 <= i < |userIds| && Membership(userIds[i], teamId) in db.memberships) || !NoDuplicates(rows) then
      Step(db, Err(UniqueViolation))
    else if (exists i :: 0 <= i < |userIds| && userIds[i] !in UserIds(db)) || (userIds != [] && teamId !in TeamIds(db)) then
      Step(db, Err(ForeignKeyViolation))
    else
      Step(db.(memberships := db.memberships + rows), Ok(|rows|))
  }

  /** The batch repeats a row exactly when the user ids repeat. */
  lemma NewMembershipsDistinct(teamId: int, userIds: seq<int>)
    ensures NoDuplicates(NewMemberships(teamId, userIds)) <==>
      forall i, j :: 0 <= i < j < |userIds| ==> userIds[i] != userIds[j]
  {
    var rows := NewMemberships(teamId, userIds);
    if !NoDuplicates(rows) {
      var i, j :| 0 <= i < j < |rows| && rows[i] == rows[j];
      assert userIds[i] == userIds[j];
    }
  }

  /** addTeamMembers keeps the invariant, whether it succeeds or fails. */
  lemma InsertMembershipsKeepsWellFormed(db: Db, teamId: int, userIds: seq<int>)
    requires WellFormed(db)
    ensures WellFormed(InsertMemberships(db, teamId, userIds).db)
  {
    var rows := NewMemberships(teamId, userIds);
    if InsertMemberships(db, teamId, userIds).out.Ok? {
      Integrity.InsertMembershipsKeepsWellFormed(db, rows);
    }
  }

  /**
   * Adding users 1 and 2 to a team, then user 2 again, fails the second time with a unique
   * violation and leaves exactly one membership for user 2.
   */
  lemma AddingAMemberTwiceConflicts(db: Db, teamId: int, u1: int, u2: int)
    requires WellFormed(db)
    requires u1 != u2 && u1 in UserIds(db) && u2 in UserIds(db) && teamId in TeamIds(db)
    requires Membership(u1, teamId) !in db.memberships && Membership(u2, teamId) !in db.memberships
    ensures InsertMemberships(db, teamId, [u1, u2]).out == Ok(2)
    ensures InsertMemberships(InsertMemberships(db, teamId, [u1, u2]).db, teamId, [u2]).out == Err(UniqueViolation)
    ensures multiset(InsertMemberships(InsertMemberships(db, teamId, [u1, u2]).db, teamId, [u2]).db.memberships)[Membership(u2, teamId)] == 1
  {
    var first := InsertMemberships(db, teamId, [u1, u2]);
    assert first.db.memberships == db.memberships + [Membership(u1, teamId), Membership(u2, teamId)];
    var second := InsertMemberships(first.db, teamId, [u2]);
    assert Membership(u2, teamId) in first.db.memberships;
    assert [u2][0] == u2;
  }

  method AddTeamMembers(store: Store, teamId: int, userIds: seq<int>) returns (r: Result<nat, DbError>)
    requires store.Valid()
    modifies store
    ensures store.Valid()
    ensures Step(store.Snapshot(), r) == InsertMemberships(old(store.Snapshot()), teamId, userIds)
  {
    ghost var before := store.Snapshot();
    var rows := NewMemberships(teamId, userIds);
    NewMembershipsDistinct(teamId, userIds);
    if (exists i :: 0 <= i < |userIds| && Membership(userIds[i], teamId) in store.memberships) || !NoDuplicates(rows) {
      r := Err(UniqueViolation);
    } else if (exists i :: 0 <= i < |userIds| && userIds[i] !in UserIds(store.Snapshot()))
      || (userIds != [] && teamId !in TeamIds(store.Snapshot()))
    {
      r := Err(ForeignKeyViolation);
    } else {
      store.memberships := store.memberships + rows;
      r := Ok(|rows|);
    }
    InsertMembershipsKeepsWellFormed(before, teamId, userIds);
  }

  // ---------------------------------------------------------------- removeTeamMember

  function NotPair(teamId: int, userId: int): Membership -> bool {
    (m: Membership) => m != Membership(userId, teamId)
  }

  /** DELETE FROM memberships WHERE team_id AND user_id; the result is the number of rows deleted. */
  function RemoveMembership(db: Db, teamId: int, userId: int): (r: Step<nat>)
    ensures r.out.Ok? && r.db.(memberships := db.memberships) == db
    ensures forall m :: m in r.db.memberships <==> m in db.memberships && m != Membership(userId, teamId)
    ensures r.out.value == |db.memberships| - |r.db.memberships|
  {
    var ms := Filter(db.memberships, NotPair(teamId, userId));
    Step(db.(memberships := ms), Ok(|db.memberships| - |ms|))
  }

  /** The pair is a key: removeTeamMember deletes one row if the user was a member, else none. */
  lemma RemoveMembershipCount(db: Db, teamId: int, userId: int)
    requires WellFormed(db)
    ensures WellFormed(RemoveMembership(db, teamId, userId).db)
    ensures RemoveMembership(db, teamId, userId).out.value == if Membership(userId, teamId) in db.memberships then 1 else 0
  {
    DeleteMembershipsKeepsWellFormed(db, NotPair(teamId, userId));
    FilterDropsAtMostOne(db.memberships, NotPair(teamId, userId));
    assert (exists m :: m in db.memberships && !NotPair(teamId, userId)(m)) <==> Membership(userId, teamId) in db.memberships;
  }

  method RemoveTeamMember(store: Store, teamId: int, userId: int) returns (deleted: nat)
    requires store.Valid()
    modifies store
    ensures store.Valid()
    ensures Step(store.Snapshot(), Ok(deleted)) == RemoveMembership(old(store.Snapshot()), teamId, userId)
  {
    ghost var before := store.Snapshot();
    var ms := Filter(store.memberships, NotPair(teamId, userId));
    deleted := |store.memberships| - |ms|;
    store.memberships := ms;
    ghost var r := RemoveMembership(before, teamId, userId);
    assert store.Snapshot() == r.db;
    SameOkStep(Step(store.Snapshot(), Ok(deleted)), r);
    RemoveMembershipCount(before, teamId, userId);
  }
}
