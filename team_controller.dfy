/**
 * backend/controllers/teamController.js. The handlers read the signed-in user from the
 * session instead of req.user, and none of them looks at is_admin: any signed-in user may
 * list, create, rename and delete every team.
 */
module TeamController {
  import opened Wrappers
  import opened Schema
  import opened Params
  import opened Validators
  import opened TeamRoutes
  import opened Http
  import opened Database
  import opened Sessions
  import TeamModel

  /** `!req.session.userId` is false: an id is stored and it is not the falsy 0. */
  predicate SignedIn(userId: Option<int>) {
    userId.Some? && userId.value != 0
  }

  const NoSession := Response(401, Message("Unauthorized - No session found"))
  const Unauthorized := Response(401, Message("Unauthorized"))

  /** getTeams: every team with its creator's email, whoever asks. */
  function GetTeams(db: Db, userId: Option<int>): (r: Response)
    ensures !SignedIn(userId) ==> r == NoSession
    ensures SignedIn(userId) ==>
      && r.status == 200 && r.payload.TeamList? && |r.payload.teams| == |db.teams|
      && forall i :: 0 <= i < |db.teams| ==> r.payload.teams[i] == TeamModel.RowOf(db, db.teams[i])
  {
    if !SignedIn(userId) then NoSession else Response(200, TeamList(TeamModel.AllTeams(db)))
  }

  /** The body's name read as the varchar column: an array does not fit and NOT NULL refuses null. */
  predicate FitsName(body: Body) {
    TextColumn(Field(body, "name")).Some? && TextColumn(Field(body, "name")).value.Some?
  }

  /** After validation the name is present and not null. */
  lemma ValidatedNameIsNotNull(body: Body)
    requires TeamNameErrors(body) == []
    ensures "name" in body && body["name"] != Null
  {
  }

  /**
   * createTeam: 400, then 401, then an insert whose creator_id is the session's user. A
   * session whose user row is gone trips the foreign key after the sequence advanced.
   */
  function CreateTeamOutcome(db: Db, userId: Option<int>, body: Body): (o: Outcome)
    ensures TeamNameErrors(body) != [] ==> o == Outcome(db, BadRequest(TeamNameErrors(body)))
    ensures TeamNameErrors(body) == [] && !SignedIn(userId) ==> o == Outcome(db, NoSession)
    ensures o.response.status in {201, 400, 401, 500}
    ensures o.db.(teams := db.teams, nextTeamId := db.nextTeamId) == db
    ensures o.response.status != 201 ==> o.db.teams == db.teams
    ensures o.response.status == 201 <==>
      TeamNameErrors(body) == [] && SignedIn(userId) && FitsName(body) && userId.value in UserIds(db)
    ensures o.response.status == 201 ==>
      && o.response.payload == TeamRecord(Team(db.nextTeamId, BoundText(Field(body, "name")), userId))
      && o.db.teams == db.teams + [o.response.payload.team]
  {
    var errs := TeamNameErrors(body);
    if errs != [] then Outcome(db, BadRequest(errs))
    else if !SignedIn(userId) then Outcome(db, NoSession)
    else if !FitsName(body) then Outcome(db, ServerError)
    else
      var step := TeamModel.InsertTeam(db, TextColumn(Field(body, "name")).value.value, userId.value);
      if step.out.Ok? then Outcome(step.db, Response(201, TeamRecord(step.out.value)))
      else Outcome(step.db, ServerError)
  }

  /**
   * updateTeam: 400, then 401, then the rename; no returned row is 404. A name or an id that
   * Postgres cannot read as its column's type is a 500 with nothing changed.
   */
  function UpdateTeamOutcome(db: Db, userId: Option<int>, id: string, body: Body): (o: Outcome)
    ensures TeamNameErrors(body) != [] ==> o == Outcome(db, BadRequest(TeamNameErrors(body)))
    ensures TeamNameErrors(body) == [] && !SignedIn(userId) ==> o == Outcome(db, Unauthorized)
    ensures o.response.status in {200, 400, 401, 404, 500}
    ensures o.db.(teams := db.teams) == db
    ensures o.response.status != 200 ==> o.db == db
    ensures o.response.status == 404 <==>
      TeamNameErrors(body) == [] && SignedIn(userId) && FitsName(body) && ParseInt4(id).Some?
      && ParseInt4(id).value !in TeamIds(db)
    ensures o.response.status == 200 ==>
      && ParseInt4(id).Some? && FitsName(body)
      && o.db == TeamModel.RenameTeam(db, ParseInt4(id).value, BoundText(Field(body, "name"))).db
      && o.response.payload.TeamRecord?
      && o.response.payload.team in o.db.teams && o.response.payload.team.id == ParseInt4(id).value
      && o.response.payload.team.name == BoundText(Field(body, "name"))
  {
    var errs := TeamNameErrors(body);
    if errs != [] then Outcome(db, BadRequest(errs))
    else if !SignedIn(userId) then Outcome(db, Unauthorized)
    else if !FitsName(body) || ParseInt4(id).None? then Outcome(db, ServerError)
    else
      var step := TeamModel.RenameTeam(db, ParseInt4(id).value, TextColumn(Field(body, "name")).value.value);
      if step.out.value == [] then Outcome(db, Response(404, Message("Team not found")))
      else
        var t := step.out.value[0];
        assert t in step.out.value;
        assert t in step.db.teams && t.id == ParseInt4(id).value;
        var i :| 0 <= i < |step.db.teams| && step.db.teams[i] == t;
        assert db.teams[i].id == t.id;
        Outcome(step.db, Response(200, TeamRecord(t)))
  }

  /**
   * deleteTeam: no validation; 401, then the cascading delete, whose count 0 is 404. The
   * transaction commits whatever its three statements did.
   */
  function DeleteTeamOutcome(db: Db, userId: Option<int>, id: string): (o: Outcome)
    ensures !SignedIn(userId) ==> o == Outcome(db, Unauthorized)
    ensures o.response.status in {200, 401, 404, 500}
    ensures o.response.status in {401, 500} ==> o.db == db
    ensures o.response.status in {200, 404} ==>
      SignedIn(userId) && ParseInt4(id).Some? && o.db == TeamModel.RemoveTeam(db, ParseInt4(id).value).db
    ensures o.response.status == 200 ==>
      && o.response == Response(200, Message("Team deleted successfully"))
      && exists t :: t in db.teams && t.id == ParseInt4(id).value
  {
    if !SignedIn(userId) then Outcome(db, Unauthorized)
    else if ParseInt4(id).None? then Outcome(db, ServerError)
    else
      var step := TeamModel.RemoveTeam(db, ParseInt4(id).value);
      if step.out.value == 0 then Outcome(step.db, Response(404, Message("Team not found")))
      else
        assert step.db.teams != db.teams;
        Outcome(step.db, Response(200, Message("Team deleted successfully")))
  }

  // ---------------------------------------------------------------- properties

  /** Without a session every handler answers 401, or 400 from validation, and nothing changes. */
  lemma NoSessionChangesNothing(db: Db, userId: Option<int>, id: string, body: Body)
    requires !SignedIn(userId)
    ensures GetTeams(db, userId).status == 401
    ensures CreateTeamOutcome(db, userId, body).db == db
    ensures CreateTeamOutcome(db, userId, body).response.status in {400, 401}
    ensures UpdateTeamOutcome(db, userId, id, body).db == db
    ensures UpdateTeamOutcome(db, userId, id, body).response.status in {400, 401}
    ensures DeleteTeamOutcome(db, userId, id) == Outcome(db, Unauthorized)
  {
  }

  /**
   * There is no authorisation beyond the session: any two signed-in users get the same
   * list, and the same rename and delete, whoever created the team.
   */
  lemma AnySignedInUserMayWrite(db: Db, u1: Option<int>, u2: Option<int>, id: string, body: Body)
    requires SignedIn(u1) && SignedIn(u2)
    ensures GetTeams(db, u1) == GetTeams(db, u2)
    ensures UpdateTeamOutcome(db, u1, id, body) == UpdateTeamOutcome(db, u2, id, body)
    ensures DeleteTeamOutcome(db, u1, id) == DeleteTeamOutcome(db, u2, id)
  {
  }

  /** Validation is decided first: the answer to an invalid name depends on nothing else. */
  lemma ValidationComesFirst(db1: Db, db2: Db, u1: Option<int>, u2: Option<int>, id1: string, id2: string, body: Body)
    requires TeamNameErrors(body) != []
    ensures CreateTeamOutcome(db1, u1, body).response == CreateTeamOutcome(db2, u2, body).response
    ensures UpdateTeamOutcome(db1, u1, id1, body).response == UpdateTeamOutcome(db2, u2, id2, body).response
  {
  }

  /** On a well-formed database, renaming or deleting a missing team is 404 and changes nothing. */
  lemma MissingTeamIsNotFound(db: Db, userId: Option<int>, id: string, body: Body)
    requires WellFormed(db) && SignedIn(userId) && ParseInt4(id).Some? && ParseInt4(id).value !in TeamIds(db)
    ensures TeamNameErrors(body) == [] && FitsName(body) ==>
      UpdateTeamOutcome(db, userId, id, body) == Outcome(db, Response(404, Message("Team not found")))
    ensures DeleteTeamOutcome(db, userId, id) == Outcome(db, Response(404, Message("Team not found")))
  {
    TeamModel.DeleteTeamCascades(db, ParseInt4(id).value);
  }

  /** On a well-formed database deleting an existing team answers 200 and removes it with its memberships and tasks. */
  lemma DeleteExistingTeam(db: Db, userId: Option<int>, t: Team)
    requires WellFormed(db) && SignedIn(userId) && t in db.teams && Int4Min <= t.id <= Int4Max
    ensures DeleteTeamOutcome(db, userId, DecimalText(t.id)).response == Response(200, Message("Team deleted successfully"))
    ensures forall m :: m in DeleteTeamOutcome(db, userId, DecimalText(t.id)).db.memberships ==> m.teamId != t.id
    ensures forall k :: k in DeleteTeamOutcome(db, userId, DecimalText(t.id)).db.tasks ==> k.teamId != Some(t.id)
    ensures TeamIds(DeleteTeamOutcome(db, userId, DecimalText(t.id)).db) == TeamIds(db) - {t.id}
  {
    ParseDecimalText(t.id);
    TeamModel.DeleteTeamCascades(db, t.id);
    var after := TeamModel.RemoveTeam(db, t.id).db;
    forall x | x in TeamIds(db) - {t.id} ensures x in TeamIds(after) {
      var s :| s in db.teams && s.id == x;
      assert s in after.teams;
    }
  }

  lemma CreateTeamKeepsWellFormed(db: Db, userId: Option<int>, body: Body)
    requires WellFormed(db)
    ensures WellFormed(CreateTeamOutcome(db, userId, body).db)
  {
    if TeamNameErrors(body) == [] && SignedIn(userId) && FitsName(body) {
      TeamModel.InsertTeamKeepsWellFormed(db, TextColumn(Field(body, "name")).value.value, userId.value);
    }
  }

  lemma UpdateTeamKeepsWellFormed(db: Db, userId: Option<int>, id: string, body: Body)
    requires WellFormed(db)
    ensures WellFormed(UpdateTeamOutcome(db, userId, id, body).db)
  {
    if FitsName(body) && ParseInt4(id).Some? {
      TeamModel.RenameTeamKeepsWellFormed(db, ParseInt4(id).value, TextColumn(Field(body, "name")).value.value);
    }
  }

  lemma DeleteTeamKeepsWellFormed(db: Db, userId: Option<int>, id: string)
    requires WellFormed(db)
    ensures WellFormed(DeleteTeamOutcome(db, userId, id).db)
  {
    if ParseInt4(id).Some? {
      TeamModel.DeleteTeamCascades(db, ParseInt4(id).value);
    }
  }

  // ---------------------------------------------------------------- against the Store

  method CreateTeam(store: Store, session: Session, body: Body) returns (resp: Response)
    requires store.Valid()
    modifies store
    ensures store.Valid()
    ensures Outcome(store.Snapshot(), resp) == CreateTeamOutcome(old(store.Snapshot()), session.userId, body)
  {
    var errs := TeamNameErrors(body);
    if errs != [] {
      return BadRequest(errs);
    }
    if !SignedIn(session.userId) {
      return NoSession;
    }
    if !FitsName(body) {
      return ServerError;
    }
    var r := TeamModel.CreateTeam(store, TextColumn(Field(body, "name")).value.value, session.userId.value);
    resp := if r.Ok? then Response(201, TeamRecord(r.value)) else ServerError;
  }

  method UpdateTeam(store: Store, session: Session, id: string, body: Body) returns (resp: Response)
    requires store.Valid()
    modifies store
    ensures store.Valid()
    ensures Outcome(store.Snapshot(), resp) == UpdateTeamOutcome(old(store.Snapshot()), session.userId, id, body)
  {
    var errs := TeamNameErrors(body);
    if errs != [] {
      return BadRequest(errs);
    }
    if !SignedIn(session.userId) {
      return Unauthorized;
    }
    var n := ParseInt4(id);
    if !FitsName(body) || n.None? {
      return ServerError;
    }
    ghost var before := store.Snapshot();
    var rows := TeamModel.UpdateTeam(store, n.value, TextColumn(Field(body, "name")).value.value);
    if rows == [] {
      resp := Response(404, Message("Team not found"));
      assert store.Snapshot() == before;
    } else {
      resp := Response(200, TeamRecord(rows[0]));
    }
  }

  method DeleteTeam(store: Store, session: Session, id: string) returns (resp: Response)
    requires store.Valid()
    modifies store
    ensures store.Valid()
    ensures Outcome(store.Snapshot(), resp) == DeleteTeamOutcome(old(store.Snapshot()), session.userId, id)
  {
    if !SignedIn(session.userId) {
      return Unauthorized;
    }
    var n := ParseInt4(id);
    if n.None? {
      return ServerError;
    }
    var deleted := TeamModel.DeleteTeam(store, n.value);
    resp := if deleted == 0 then Response(404, Message("Team not found")) else Response(200, Message("Team deleted successfully"));
  }
}
