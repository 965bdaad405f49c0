/**
 * backend/migrations/20250607034038_add_cascade_deletes.js: the team_id keys of memberships
 * and tasks are recreated with ON DELETE CASCADE, and `down` recreates them without. What
 * the rule changes is the meaning of a DELETE on teams, modelled here under either key set.
 */
module CascadeMigration {
  import opened Wrappers
  import opened Rows
  import opened Schema
  import TeamModel

  /** The keys with the rule of the key on (from, column) replaced; every other key kept. */
  function WithOnDelete(fks: seq<ForeignKey>, from: Table, column: string, action: OnDelete): (r: seq<ForeignKey>)
    ensures |r| == |fks|
    ensures forall i :: 0 <= i < |fks| ==>
      && r[i].(onDelete := fks[i].onDelete) == fks[i]
      && r[i].onDelete == if fks[i].from == from && fks[i].column == column then action else fks[i].onDelete
  {
    seq(|fks|, i requires 0 <= i < |fks| =>
      if fks[i].from == from && fks[i].column == column then fks[i].(onDelete := action) else fks[i])
  }

  /** up: drop and recreate both team_id keys with ON DELETE CASCADE. */
  function Up(fks: seq<ForeignKey>): seq<ForeignKey> {
    WithOnDelete(WithOnDelete(fks, MembershipsTable, "team_id", Cascade), TasksTable, "team_id", Cascade)
  }

  /** down: drop and recreate both team_id keys with no rule. */
  function Down(fks: seq<ForeignKey>): seq<ForeignKey> {
    WithOnDelete(WithOnDelete(fks, MembershipsTable, "team_id", NoAction), TasksTable, "team_id", NoAction)
  }

  /**
   * After up, exactly the two keys that point at teams cascade; every key keeps its columns
   * and target, so the user-side keys stay as the first migration made them.
   */
  lemma UpCascadesOnlyTeamKeys()
    ensures |Up(InitialForeignKeys)| == |InitialForeignKeys|
    ensures forall i :: 0 <= i < |InitialForeignKeys| ==>
      Up(InitialForeignKeys)[i].(onDelete := NoAction) == InitialForeignKeys[i]
    ensures forall i :: 0 <= i < |InitialForeignKeys| ==>
      (Up(InitialForeignKeys)[i].onDelete == Cascade <==> InitialForeignKeys[i].to == TeamsTable)
    ensures forall fk :: fk in Up(InitialForeignKeys) && fk.to == UsersTable ==> fk.onDelete == NoAction
  {
    var inner := WithOnDelete(InitialForeignKeys, MembershipsTable, "team_id", Cascade);
    assert forall i :: 0 <= i < |InitialForeignKeys| ==> inner[i].(onDelete := NoAction) == InitialForeignKeys[i];
  }

  /** down undoes up: the keys are again those of the first migration. */
  lemma DownUndoesUp()
    ensures Down(Up(InitialForeignKeys)) == InitialForeignKeys
  {
    var up := Up(InitialForeignKeys);
    var down := Down(up);
    forall i | 0 <= i < |InitialForeignKeys| ensures down[i] == InitialForeignKeys[i] {
      assert up[i].(onDelete := NoAction) == InitialForeignKeys[i] by { UpCascadesOnlyTeamKeys(); }
    }
  }

  /** The rule of the first key declared on (from, column); NoAction if there is none. */
  function RuleOf(fks: seq<ForeignKey>, from: Table, column: string): (r: OnDelete)
    ensures r == Cascade ==> exists fk :: fk in fks && fk.from == from && fk.column == column && fk.onDelete == Cascade
  {
    if fks == [] then NoAction
    else if fks[0].from == from && fks[0].column == column then fks[0].onDelete
    else RuleOf(fks[1..], from, column)
  }

  /** Some membership or task still points at team `id` through a key that does not cascade. */
  ghost predicate Blocked(db: Db, fks: seq<ForeignKey>, id: int) {
    || (RuleOf(fks, MembershipsTable, "team_id") == NoAction && exists m :: m in db.memberships && m.teamId == id)
    || (RuleOf(fks, TasksTable, "team_id") == NoAction && exists k :: k in db.tasks && k.teamId == Some(id))
  }

  /**
   * DELETE FROM teams WHERE id = `id` under the keys `fks`: rows pointing at the team
   * through a cascading key go with it; a row pointing through any other key makes the
   * statement fail and change nothing.
   */
  function DeleteTeamRow(db: Db, fks: seq<ForeignKey>, id: int): (r: Step<nat>)
    ensures r.out.Err? <==> id in TeamIds(db) && Blocked(db, fks, id)
    ensures r.out.Err? ==> r.out.error == ForeignKeyViolation && r.db == db
    ensures r.out.Ok? ==> forall t :: t in r.db.teams <==> t in db.teams && t.id != id
    ensures r.out.Ok? ==> r.out.value == |db.teams| - |r.db.teams|
    ensures r.out.Ok? && RuleOf(fks, MembershipsTable, "team_id") == NoAction ==> r.db.memberships == db.memberships
    ensures r.out.Ok? && RuleOf(fks, TasksTable, "team_id") == NoAction ==> r.db.tasks == db.tasks
  {
    var m := RuleOf(fks, MembershipsTable, "team_id");
    var k := RuleOf(fks, TasksTable, "team_id");
    if id in TeamIds(db)
      && ((m == NoAction && exists x :: x in db.memberships && x.teamId == id)
          || (k == NoAction && exists x :: x in db.tasks && x.teamId == Some(id)))
    then Step(db, Err(ForeignKeyViolation))
    else
      var noMembers := if m == Cascade then db.(memberships := Filter(db.memberships, TeamModel.NotInTeam(id))) else db;
      var noTasks := if k == Cascade then noMembers.(tasks := Filter(db.tasks, TeamModel.NotOfTeam(id))) else noMembers;
      var noTeam := noTasks.(teams := Filter(db.teams, TeamModel.NotTeam(id)));
      Step(noTeam, Ok(|db.teams| - |noTeam.teams|))
  }

  lemma CascadeRules()
    ensures RuleOf(Up(InitialForeignKeys), MembershipsTable, "team_id") == Cascade
    ensures RuleOf(Up(InitialForeignKeys), TasksTable, "team_id") == Cascade
    ensures RuleOf(InitialForeignKeys, MembershipsTable, "team_id") == NoAction
    ensures RuleOf(InitialForeignKeys, TasksTable, "team_id") == NoAction
  {
    var up := Up(InitialForeignKeys);
    UpCascadesOnlyTeamKeys();
    assert up[0].from == TeamsTable && up[1].column == "user_id" && up[2].from == MembershipsTable;
    assert up[2].column == "team_id" && up[2].onDelete == Cascade;
    assert up[3].from == TasksTable && up[3].column == "team_id" && up[3].onDelete == Cascade;
    assert up[1..][1..] == up[2..];
    assert up[2..][1..] == up[3..];
  }

  /** Where both team_id keys cascade, deleting the team row alone does all that deleteTeam does. */
  lemma CascadingDeleteIsDeleteTeam(db: Db, fks: seq<ForeignKey>, id: int)
    requires RuleOf(fks, MembershipsTable, "team_id") == Cascade && RuleOf(fks, TasksTable, "team_id") == Cascade
    ensures DeleteTeamRow(db, fks, id) == TeamModel.RemoveTeam(db, id)
  {
    var d := DeleteTeamRow(db, fks, id);
    var r := TeamModel.RemoveTeam(db, id);
    TeamModel.RemoveTeamAsStatements(db, id);
    assert !Blocked(db, fks, id);
    assert d.db == r.db;
    assert d.out.Ok?;
    assert r.out.Ok?;
    assert d.out.value == r.out.value;
    SameOkStep(d, r);
  }

  /** After up, the migration's own keys: deleteTeam's first two statements become redundant. */
  lemma CascadeDeleteIsDeleteTeam(db: Db, id: int)
    ensures DeleteTeamRow(db, Up(InitialForeignKeys), id) == TeamModel.RemoveTeam(db, id)
  {
    CascadeRules();
    CascadingDeleteIsDeleteTeam(db, Up(InitialForeignKeys), id);
  }

  /** Under the first migration's keys, deleting a team that still has members fails. */
  lemma InitialKeysRefuseTeamWithMembers(db: Db, id: int, m: Membership)
    requires id in TeamIds(db) && m in db.memberships && m.teamId == id
    ensures DeleteTeamRow(db, InitialForeignKeys, id) == Step(db, Err(ForeignKeyViolation))
  {
    CascadeRules();
  }

  /** The database after deleteTeam's first two statements: the team's memberships and tasks are gone. */
  function Cleared(db: Db, id: int): (r: Db)
    ensures forall m :: m in r.memberships <==> m in db.memberships && m.teamId != id
    ensures forall k :: k in r.tasks <==> k in db.tasks && k.teamId != Some(id)
    ensures r.(memberships := db.memberships, tasks := db.tasks) == db
  {
    db.(memberships := Filter(db.memberships, TeamModel.NotInTeam(id)),
        tasks := Filter(db.tasks, TeamModel.NotOfTeam(id)))
  }

  /** Filtering again by the same condition keeps every row. */
  lemma FilterTwice<T(!new)>(s: seq<T>, p: T -> bool)
    ensures Filter(Filter(s, p), p) == Filter(s, p)
  {
    var once := Filter(s, p);
    forall i | 0 <= i < |once| ensures p(once[i]) {
      assert once[i] in once;
    }
  }

  /**
   * Because deleteTeam removes the memberships and tasks before the team, its last statement
   * cannot fail and has the same effect whatever rules the team_id keys carry.
   */
  lemma ClearedDeleteIsDeleteTeam(db: Db, fks: seq<ForeignKey>, id: int)
    ensures DeleteTeamRow(Cleared(db, id), fks, id) == TeamModel.RemoveTeam(db, id)
  {
    var c := Cleared(db, id);
    FilterTwice(db.memberships, TeamModel.NotInTeam(id));
    FilterTwice(db.tasks, TeamModel.NotOfTeam(id));
    assert !Blocked(c, fks, id);
    var expected := c.(teams := Filter(db.teams, TeamModel.NotTeam(id)));
    var r := TeamModel.RemoveTeam(db, id);
    var d := DeleteTeamRow(c, fks, id);
    assert r.db == expected && d.db == expected;
    assert d.out.value == r.out.value == |db.teams| - |expected.teams|;
    SameOkStep(d, r);
  }

  /** In particular deleteTeam works the same under the first migration's keys and under up's. */
  lemma ChildrenFirstNeedsNoCascade(db: Db, id: int)
    ensures DeleteTeamRow(Cleared(db, id), InitialForeignKeys, id) == TeamModel.RemoveTeam(db, id)
    ensures DeleteTeamRow(Cleared(db, id), Up(InitialForeignKeys), id) == TeamModel.RemoveTeam(db, id)
  {
    ClearedDeleteIsDeleteTeam(db, InitialForeignKeys, id);
    ClearedDeleteIsDeleteTeam(db, Up(InitialForeignKeys), id);
  }
}
