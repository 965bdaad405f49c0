/**
 * The database invariant under the kinds of statement the models issue. Each lemma covers one
 * table and any WHERE condition or new rows, so every statement in the models reuses it.
 */
module Integrity {
  import opened Wrappers
  import opened Rows
  import opened Schema

  /** Deleting memberships never breaks a key or leaves a reference dangling. */
  lemma DeleteMembershipsKeepsWellFormed(db: Db, keep: Membership -> bool)
    requires WellFormed(db)
    ensures WellFormed(db.(memberships := Filter(db.memberships, keep)))
  {
    var db' := db.(memberships := Filter(db.memberships, keep));
    assert UserIds(db') == UserIds(db) && TeamIds(db') == TeamIds(db);
    assert KeysUnique(db');
    assert ReferencesResolve(db');
    assert SerialsAhead(db');
  }

  /** Deleting tasks never breaks a key or leaves a reference dangling. */
  lemma DeleteTasksKeepsWellFormed(db: Db, keep: Task -> bool)
    requires WellFormed(db)
    ensures WellFormed(db.(tasks := Filter(db.tasks, keep)))
  {
    var db' := db.(tasks := Filter(db.tasks, keep));
    assert UserIds(db') == UserIds(db) && TeamIds(db') == TeamIds(db);
    assert KeysUnique(db');
    assert ReferencesResolve(db');
    assert SerialsAhead(db');
  }

  /**
   * Deleting teams keeps the invariant provided no membership and no task still points at a
   * deleted team; otherwise the foreign keys would reject the statement.
   */
  lemma DeleteTeamsKeepsWellFormed(db: Db, keep: Team -> bool)
    requires WellFormed(db)
    requires forall m, t :: m in db.memberships && t in db.teams && m.teamId == t.id ==> keep(t)
    requires forall k, t :: k in db.tasks && t in db.teams && k.teamId == Some(t.id) ==> keep(t)
    ensures WellFormed(db.(teams := Filter(db.teams, keep)))
  {
    var db' := db.(teams := Filter(db.teams, keep));
    assert UserIds(db') == UserIds(db);
    assert KeysUnique(db');
    forall m | m in db'.memberships ensures m.teamId in TeamIds(db') {
      var t :| t in db.teams && t.id == m.teamId;
      assert t in db'.teams;
    }
    forall k | k in db'.tasks && k.teamId.Some? ensures k.teamId.value in TeamIds(db') {
      var t :| t in db.teams && t.id == k.teamId.value;
      assert t in db'.teams;
    }
    assert ReferencesResolve(db');
    assert SerialsAhead(db');
  }

  /**
   * An UPDATE of teams that changes neither an id nor a creator_id keeps the invariant: the
   * rows it writes are still distinct because their ids are.
   */
  lemma UpdateTeamsKeepsWellFormed(db: Db, ts: seq<Team>)
    requires WellFormed(db)
    requires |ts| == |db.teams|
    requires forall i :: 0 <= i < |ts| ==> ts[i].id == db.teams[i].id && ts[i].creatorId == db.teams[i].creatorId
    ensures WellFormed(db.(teams := ts))
  {
    var db' := db.(teams := ts);
    UpdatedTeamsKeepIds(db, ts);
    UpdatedTeamsStayUnique(db, ts);
    forall t | t in ts && t.creatorId.Some? ensures t.creatorId.value in UserIds(db') {
      var i :| 0 <= i < |ts| && ts[i] == t;
      assert db.teams[i] in db.teams;
    }
    assert ReferencesResolve(db');
    forall t | t in ts ensures 1 <= t.id < db.nextTeamId {
      var i :| 0 <= i < |ts| && ts[i] == t;
      assert db.teams[i] in db.teams;
    }
    assert SerialsAhead(db');
  }

  lemma UpdatedTeamsKeepIds(db: Db, ts: seq<Team>)
    requires |ts| == |db.teams|
    requires forall i :: 0 <= i < |ts| ==> ts[i].id == db.teams[i].id
    ensures TeamIds(db.(teams := ts)) == TeamIds(db)
  {
    var db' := db.(teams := ts);
    forall x | x in TeamIds(db) ensures x in TeamIds(db') {
      var i :| 0 <= i < |db.teams| && db.teams[i].id == x;
      assert ts[i] in ts;
    }
    forall x | x in TeamIds(db') ensures x in TeamIds(db) {
      var i :| 0 <= i < |ts| && ts[i].id == x;
      assert db.teams[i] in db.teams;
    }
  }

  lemma UpdatedTeamsStayUnique(db: Db, ts: seq<Team>)
    requires KeysUnique(db)
    requires |ts| == |db.teams|
    requires forall i :: 0 <= i < |ts| ==> ts[i].id == db.teams[i].id
    ensures KeysUnique(db.(teams := ts))
  {
    NoDuplicatesIffSingletons(db.teams);
    forall i, j | 0 <= i < j < |ts| ensures ts[i] != ts[j] {
      assert db.teams[i] in db.teams && db.teams[j] in db.teams;
      assert db.teams[i] != db.teams[j];
      assert db.teams[i].id != db.teams[j].id;
    }
    NoDuplicatesIffSingletons(ts);
    forall a, b | a in ts && b in ts && a.id == b.id ensures a == b {
      var i :| 0 <= i < |ts| && ts[i] == a;
      var j :| 0 <= j < |ts| && ts[j] == b;
      assert db.teams[i] in db.teams && db.teams[j] in db.teams;
      assert db.teams[i] == db.teams[j];
    }
  }

  /**
   * A multi-row INSERT into memberships keeps the invariant when its rows are new, pairwise
   * distinct, and name an existing user and team.
   */
  lemma InsertMembershipsKeepsWellFormed(db: Db, rows: seq<Membership>)
    requires WellFormed(db)
    requires NoDuplicates(rows)
    requires forall m :: m in rows ==> m !in db.memberships && m.userId in UserIds(db) && m.teamId in TeamIds(db)
    ensures WellFormed(db.(memberships := db.memberships + rows))
  {
    var db' := db.(memberships := db.memberships + rows);
    forall m ensures multiset(db'.memberships)[m] <= 1 {
      NoDuplicatesCount(rows, m);
    }
    assert UserIds(db') == UserIds(db) && TeamIds(db') == TeamIds(db);
    assert KeysUnique(db');
    assert ReferencesResolve(db');
    assert SerialsAhead(db');
  }

  /**
   * An UPDATE of tasks that changes no id, and whose rows' references resolve, keeps the
   * invariant: the rows it writes are still distinct because their ids are.
   */
  lemma UpdateTasksKeepsWellFormed(db: Db, ks: seq<Task>)
    requires WellFormed(db)
    requires |ks| == |db.tasks|
    requires forall i :: 0 <= i < |ks| ==> ks[i].id == db.tasks[i].id
    requires forall k :: k in ks && k.teamId.Some? ==> k.teamId.value in TeamIds(db)
    requires forall k :: k in ks && k.assignedTo.Some? ==> k.assignedTo.value in UserIds(db)
    ensures WellFormed(db.(tasks := ks))
  {
    var db' := db.(tasks := ks);
    UpdatedTasksStayUnique(db, ks);
    assert UserIds(db') == UserIds(db) && TeamIds(db') == TeamIds(db);
    assert ReferencesResolve(db');
    forall k | k in ks ensures 1 <= k.id < db.nextTaskId {
      var i :| 0 <= i < |ks| && ks[i] == k;
      assert db.tasks[i] in db.tasks;
    }
    assert SerialsAhead(db');
  }

  lemma UpdatedTasksStayUnique(db: Db, ks: seq<Task>)
    requires KeysUnique(db)
    requires |ks| == |db.tasks|
    requires forall i :: 0 <= i < |ks| ==> ks[i].id == db.tasks[i].id
    ensures KeysUnique(db.(tasks := ks))
  {
    NoDuplicatesIffSingletons(db.tasks);
    forall i, j | 0 <= i < j < |ks| ensures ks[i] != ks[j] {
      assert db.tasks[i] in db.tasks && db.tasks[j] in db.tasks;
      assert db.tasks[i] != db.tasks[j];
      assert db.tasks[i].id != db.tasks[j].id;
    }
    NoDuplicatesIffSingletons(ks);
    forall a, b | a in ks && b in ks && a.id == b.id ensures a == b {
      var i :| 0 <= i < |ks| && ks[i] == a;
      var j :| 0 <= j < |ks| && ks[j] == b;
      assert db.tasks[i] in db.tasks && db.tasks[j] in db.tasks;
      assert db.tasks[i] == db.tasks[j];
    }
  }

  /** Appending a task that takes the sequence's next id and names existing rows keeps every constraint. */
  lemma AppendTaskKeepsWellFormed(db: Db, k: Task)
    requires WellFormed(db)
    requires k.id == db.nextTaskId
    requires k.teamId.Some? ==> k.teamId.value in TeamIds(db)
    requires k.assignedTo.Some? ==> k.assignedTo.value in UserIds(db)
    ensures WellFormed(db.(tasks := db.tasks + [k], nextTaskId := db.nextTaskId + 1))
  {
    var db' := db.(tasks := db.tasks + [k], nextTaskId := db.nextTaskId + 1);
    AppendTaskKeepsKeysUnique(db, k, db.nextTaskId + 1);
    assert UserIds(db') == UserIds(db) && TeamIds(db') == TeamIds(db);
    assert ReferencesResolve(db');
    assert SerialsAhead(db');
  }

  lemma AppendTaskKeepsKeysUnique(db: Db, k: Task, next: int)
    requires KeysUnique(db)
    requires forall x :: x in db.tasks ==> x.id != k.id
    ensures KeysUnique(db.(tasks := db.tasks + [k], nextTaskId := next))
  {
    assert k !in db.tasks;
    assert forall x :: multiset(db.tasks + [k])[x] == multiset(db.tasks)[x] + (if x == k then 1 else 0);
  }

  /** Advancing the task sequence alone keeps every constraint. */
  lemma SkipTaskIdKeepsWellFormed(db: Db)
    requires WellFormed(db)
    ensures WellFormed(db.(nextTaskId := db.nextTaskId + 1))
  {
    var db' := db.(nextTaskId := db.nextTaskId + 1);
    assert UserIds(db') == UserIds(db) && TeamIds(db') == TeamIds(db);
  }

  /** Appending a user that takes the sequence's next id and a new email keeps every constraint. */
  lemma AppendUserKeepsWellFormed(db: Db, u: User)
    requires WellFormed(db)
    requires u.id == db.nextUserId && u.email !in Emails(db)
    ensures WellFormed(db.(users := db.users + [u], nextUserId := db.nextUserId + 1))
  {
    var db' := db.(users := db.users + [u], nextUserId := db.nextUserId + 1);
    AppendUserKeepsKeysUnique(db, u, db.nextUserId + 1);
    assert UserIds(db') == UserIds(db) + {u.id} && TeamIds(db') == TeamIds(db);
    assert ReferencesResolve(db');
    assert SerialsAhead(db');
  }

  lemma AppendUserKeepsKeysUnique(db: Db, u: User, next: int)
    requires KeysUnique(db)
    requires forall x :: x in db.users ==> x.id != u.id && x.email != u.email
    ensures KeysUnique(db.(users := db.users + [u], nextUserId := next))
  {
    assert u !in db.users;
    assert forall x :: multiset(db.users + [u])[x] == multiset(db.users)[x] + (if x == u then 1 else 0);
  }

  /** Advancing the users sequence alone keeps every constraint. */
  lemma SkipUserIdKeepsWellFormed(db: Db)
    requires WellFormed(db)
    ensures WellFormed(db.(nextUserId := db.nextUserId + 1))
  {
    var db' := db.(nextUserId := db.nextUserId + 1);
    assert UserIds(db') == UserIds(db) && TeamIds(db') == TeamIds(db);
  }
}
