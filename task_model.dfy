/**
 * backend/models/task.js: the three queries over tasks are functions of the database; the
 * three statements that write are step functions with a Store method each.
 */
module TaskModel {
  import opened Wrappers
  import opened Rows
  import opened Schema
  import opened Database
  import opened Integrity

  /** A row of `tasks.*` with `teams.name AS team_name` and `users.email AS assignee_email`. */
  datatype TaskRow = TaskRow(task: Task, teamName: Option<string>, assigneeEmail: Option<string>)

  /**
   * One row of tasks LEFT JOIN teams ON tasks.team_id = teams.id LEFT JOIN users ON
   * tasks.assigned_to = users.id. Both joins are on primary keys, so a task yields one row.
   */
  function RowOf(db: Db, k: Task): (r: TaskRow)
    ensures r.task == k
    ensures r.teamName.Some? <==> k.teamId.Some? && k.teamId.value in TeamIds(db)
    ensures r.teamName.Some? ==> exists t :: t in db.teams && Some(t.id) == k.teamId && t.name == r.teamName.value
    ensures r.assigneeEmail.Some? <==> k.assignedTo.Some? && k.assignedTo.value in UserIds(db)
    ensures r.assigneeEmail.Some? ==>
      exists u :: u in db.users && Some(u.id) == k.assignedTo && u.email == r.assigneeEmail.value
  {
    var team := if k.teamId.Some? then TeamWithId(db.teams, k.teamId.value) else None;
    var user := if k.assignedTo.Some? then UserWithId(db.users, k.assignedTo.value) else None;
    TaskRow(k, if team.Some? then Some(team.value.name) else None, if user.Some? then Some(user.value.email) else None)
  }

  /** The tasks a result carries, one per row. */
  function TasksOf(rows: seq<TaskRow>): (ks: seq<Task>)
    ensures |ks| == |rows|
    ensures forall i :: 0 <= i < |rows| ==> ks[i] == rows[i].task
  {
    seq(|rows|, i requires 0 <= i < |rows| => rows[i].task)
  }

  /** The joined row of each of `ks`. */
  function JoinRows(db: Db, ks: seq<Task>): (rows: seq<TaskRow>)
    ensures TasksOf(rows) == ks
    ensures forall r :: r in rows ==> r == RowOf(db, r.task)
  {
    seq(|ks|, i requires 0 <= i < |ks| => RowOf(db, ks[i]))
  }

  /** getAllTasks: every task exactly once, in table order, with its team name and assignee email. */
  function AllTasks(db: Db): (rows: seq<TaskRow>)
    ensures TasksOf(rows) == db.tasks
    ensures forall r :: r in rows ==> r == RowOf(db, r.task)
  {
    JoinRows(db, db.tasks)
  }

  function OnTeam(teamId: int): Task -> bool {
    (k: Task) => k.teamId == Some(teamId)
  }

  function AssignedTo(userId: int): Task -> bool {
    (k: Task) => k.assignedTo == Some(userId)
  }

  /**
   * getTasksByTeam: exactly the tasks whose team_id is `teamId`, each as often as it is stored.
   * The WHERE reads a column of tasks only, so it may select before the joins.
   */
  function TasksByTeam(db: Db, teamId: int): (rows: seq<TaskRow>)
    ensures forall r :: r in rows ==> r == RowOf(db, r.task)
    ensures forall k :: multiset(TasksOf(rows))[k] == if k.teamId == Some(teamId) then multiset(db.tasks)[k] else 0
  {
    JoinRows(db, Filter(db.tasks, OnTeam(teamId)))
  }

  /** getTasksByUser: exactly the tasks assigned to `userId`, each as often as it is stored. */
  function TasksByUser(db: Db, userId: int): (rows: seq<TaskRow>)
    ensures forall r :: r in rows ==> r == RowOf(db, r.task)
    ensures forall k :: multiset(TasksOf(rows))[k] == if k.assignedTo == Some(userId) then multiset(db.tasks)[k] else 0
  {
    JoinRows(db, Filter(db.tasks, AssignedTo(userId)))
  }

  /** With task ids unique, each result holds a task at most once. */
  lemma QueriesListEachTaskOnce(db: Db, teamId: int, userId: int, k: Task)
    requires WellFormed(db)
    ensures multiset(TasksOf(AllTasks(db)))[k] == if k in db.tasks then 1 else 0
    ensures multiset(TasksOf(TasksByTeam(db, teamId)))[k] == if k in db.tasks && k.teamId == Some(teamId) then 1 else 0
    ensures multiset(TasksOf(TasksByUser(db, userId)))[k] == if k in db.tasks && k.assignedTo == Some(userId) then 1 else 0
  {
    NoDuplicatesIffSingletons(db.tasks);
    NoDuplicatesCount(db.tasks, k);
  }

  // ---------------------------------------------------------------- createTask

  /**
   * INSERT INTO tasks RETURNING every column. The serial advances even when a foreign key
   * then rejects the row.
   */
  function InsertTask(db: Db, title: string, description: Option<string>, dueDate: Option<string>,
                      teamId: Option<int>, assignedTo: Option<int>): (r: Step<Task>)
    ensures r.db.nextTaskId == db.nextTaskId + 1
    ensures r.db.(tasks := db.tasks, nextTaskId := db.nextTaskId) == db
    ensures r.out.Ok? <==>
      (teamId.Some? ==> teamId.value in TeamIds(db)) && (assignedTo.Some? ==> assignedTo.value in UserIds(db))
    ensures r.out.Err? ==> r.out.error == ForeignKeyViolation && r.db.tasks == db.tasks
    ensures r.out.Ok? ==>
      && r.out.value == Task(db.nextTaskId, title, description, dueDate, teamId, assignedTo)
      && r.db.tasks == db.tasks + [r.out.value]
  {
    var db' := db.(nextTaskId := db.nextTaskId + 1);
    if (teamId.Some? && teamId.value !in TeamIds(db)) || (assignedTo.Some? && assignedTo.value !in UserIds(db)) then
      Step(db', Err(ForeignKeyViolation))
    else
      var k := Task(db.nextTaskId, title, description, dueDate, teamId, assignedTo);
      Step(db'.(tasks := db.tasks + [k]), Ok(k))
  }

  /** createTask keeps the invariant and the new task's id was not in use. */
  lemma InsertTaskKeepsWellFormed(db: Db, title: string, description: Option<string>, dueDate: Option<string>,
                                  teamId: Option<int>, assignedTo: Option<int>)
    requires WellFormed(db)
    ensures WellFormed(InsertTask(db, title, description, dueDate, teamId, assignedTo).db)
    ensures InsertTask(db, title, description, dueDate, teamId, assignedTo).out.Ok? ==>
      InsertTask(db, title, description, dueDate, teamId, assignedTo).out.value.id !in TaskIds(db)
  {
    var r := InsertTask(db, title, description, dueDate, teamId, assignedTo);
    if r.out.Ok? {
      AppendTaskKeepsWellFormed(db, r.out.value);
      assert r.out.value.id !in TaskIds(db);
    } else {
      SkipTaskIdKeepsWellFormed(db);
    }
  }

  method CreateTask(store: Store, title: string, description: Option<string>, dueDate: Option<string>,
                    teamId: Option<int>, assignedTo: Option<int>) returns (r: Result<Task, DbError>)
    requires store.Valid()
    modifies store
    ensures store.Valid()
    ensures Step(store.Snapshot(), r) == InsertTask(old(store.Snapshot()), title, description, dueDate, teamId, assignedTo)
  {
    ghost var before := store.Snapshot();
    var id := store.nextTaskId;
    store.nextTaskId := id + 1;
    if (teamId.Some? && teamId.value !in TeamIds(store.Snapshot()))
      || (assignedTo.Some? && assignedTo.value !in UserIds(store.Snapshot()))
    {
      r := Err(ForeignKeyViolation);
    } else {
      var k := Task(id, title, description, dueDate, teamId, assignedTo);
      store.tasks := store.tasks + [k];
      r := Ok(k);
    }
    assert Step(store.Snapshot(), r) == InsertTask(before, title, description, dueDate, teamId, assignedTo);
    InsertTaskKeepsWellFormed(before, title, description, dueDate, teamId, assignedTo);
  }

  // ---------------------------------------------------------------- updateTask

  /**
   * The columns an update sets, taken from the request body: None for a key the body leaves
   * out, Some(None) for a nullable column set to NULL.
   */
  datatype TaskPatch = TaskPatch(
    title: Option<string>,
    description: Option<Option<string>>,
    dueDate: Option<Option<string>>,
    teamId: Option<Option<int>>,
    assignedTo: Option<Option<int>>)

  predicate IsEmptyPatch(p: TaskPatch) {
    p.title.None? && p.description.None? && p.dueDate.None? && p.teamId.None? && p.assignedTo.None?
  }

  /** A task with the patch's columns written over it. */
  function Patched(k: Task, p: TaskPatch): Task {
    Task(k.id, p.title.GetOr(k.title), p.description.GetOr(k.description), p.dueDate.GetOr(k.dueDate),
         p.teamId.GetOr(k.teamId), p.assignedTo.GetOr(k.assignedTo))
  }

  /** Writing the same columns twice is writing them once; writing none changes nothing. */
  lemma PatchedIdempotent(k: Task, p: TaskPatch)
    ensures Patched(Patched(k, p), p) == Patched(k, p)
    ensures IsEmptyPatch(p) ==> Patched(k, p) == k
    ensures Patched(k, p).id == k.id
  {
  }

  /** The foreign-key values the patch writes name existing rows. */
  predicate PatchResolves(db: Db, p: TaskPatch) {
    && (p.teamId.Some? && p.teamId.value.Some? ==> p.teamId.value.value in TeamIds(db))
    && (p.assignedTo.Some? && p.assignedTo.value.Some? ==> p.assignedTo.value.value in UserIds(db))
  }

  /** The tasks table after UPDATE ... SET <patch> WHERE id = `id`. */
  function Patches(ks: seq<Task>, id: int, p: TaskPatch): (r: seq<Task>)
    ensures |r| == |ks|
    ensures forall i :: 0 <= i < |ks| ==> r[i] == if ks[i].id == id then Patched(ks[i], p) else ks[i]
  {
    seq(|ks|, i requires 0 <= i < |ks| => if ks[i].id == id then Patched(ks[i], p) else ks[i])
  }

  function HasTaskId(id: int): Task -> bool {
    (k: Task) => k.id == id
  }

  /**
   * updateTask: UPDATE tasks SET <patch> WHERE id RETURNING every column. knex refuses an
   * empty patch; the foreign keys are checked only when some row matched; the returned rows
   * are the updated ones.
   */
  function PatchTask(db: Db, id: int, p: TaskPatch): (r: Step<seq<Task>>)
    ensures r.db.(tasks := db.tasks) == db
    ensures r.out.Err? ==> r.db == db
    ensures r.out == Err(EmptyUpdate) <==> IsEmptyPatch(p)
    ensures r.out == Err(ForeignKeyViolation) <==> !IsEmptyPatch(p) && id in TaskIds(db) && !PatchResolves(db, p)
    ensures r.out.Ok? ==> |r.db.tasks| == |db.tasks|
    ensures r.out.Ok? ==> forall i :: 0 <= i < |db.tasks| && db.tasks[i].id != id ==> r.db.tasks[i] == db.tasks[i]
    ensures r.out.Ok? ==> forall i :: 0 <= i < |db.tasks| && db.tasks[i].id == id ==> r.db.tasks[i] == Patched(db.tasks[i], p)
    ensures r.out.Ok? ==> forall k :: k in r.out.value <==> k in r.db.tasks && k.id == id
    ensures r.out.Ok? ==> (r.out.value == [] <==> id !in TaskIds(db))
    ensures r.out.Ok? && id !in TaskIds(db) ==> r.db == db
  {
    if IsEmptyPatch(p) then
      Step(db, Err(EmptyUpdate))
    else if id in TaskIds(db) && !PatchResolves(db, p) then
      Step(db, Err(ForeignKeyViolation))
    else
      var ks := Patches(db.tasks, id, p);
      PatchesKeepIds(db, id, p);
      Step(db.(tasks := ks), Ok(Filter(ks, HasTaskId(id))))
  }

  /** Patching keeps every id, so a row matches after the update exactly when it did before. */
  lemma PatchesKeepIds(db: Db, id: int, p: TaskPatch)
    ensures (exists k :: k in Patches(db.tasks, id, p) && k.id == id) <==> id in TaskIds(db)
    ensures id !in TaskIds(db) ==> Patches(db.tasks, id, p) == db.tasks
  {
    var ks := Patches(db.tasks, id, p);
    if id in TaskIds(db) {
      var i :| 0 <= i < |db.tasks| && db.tasks[i].id == id;
      assert ks[i] in ks;
    } else {
      forall i | 0 <= i < |db.tasks| ensures db.tasks[i].id != id {
        assert db.tasks[i] in db.tasks;
      }
    }
  }

  /** A successful update keeps the invariant. */
  lemma PatchTaskKeepsWellFormed(db: Db, id: int, p: TaskPatch)
    requires WellFormed(db)
    ensures WellFormed(PatchTask(db, id, p).db)
  {
    var r := PatchTask(db, id, p);
    if r.out.Ok? && id in TaskIds(db) {
      var ks := Patches(db.tasks, id, p);
      assert r.db == db.(tasks := ks);
      PatchesResolve(db, id, p);
      UpdateTasksKeepsWellFormed(db, ks);
    }
  }

  /** With the patch's references resolving, every patched row's references resolve. */
  lemma PatchesResolve(db: Db, id: int, p: TaskPatch)
    requires ReferencesResolve(db) && PatchResolves(db, p)
    ensures forall k :: k in Patches(db.tasks, id, p) ==>
      (k.teamId.Some? ==> k.teamId.value in TeamIds(db)) && (k.assignedTo.Some? ==> k.assignedTo.value in UserIds(db))
  {
    var ks := Patches(db.tasks, id, p);
    forall k | k in ks
      ensures (k.teamId.Some? ==> k.teamId.value in TeamIds(db)) && (k.assignedTo.Some? ==> k.assignedTo.value in UserIds(db))
    {
      var i :| 0 <= i < |ks| && ks[i] == k;
      assert db.tasks[i] in db.tasks;
    }
  }

  /** On an existing id, a successful updateTask returns exactly that task, patched. */
  lemma PatchTaskReturnsPatched(db: Db, k: Task, p: TaskPatch)
    requires WellFormed(db) && k in db.tasks
    requires PatchTask(db, k.id, p).out.Ok?
    ensures PatchTask(db, k.id, p).out.value == [Patched(k, p)]
  {
    PatchTaskKeepsWellFormed(db, k.id, p);
    var ks := PatchTask(db, k.id, p).db.tasks;
    var i :| 0 <= i < |db.tasks| && db.tasks[i] == k;
    assert ks[i] == Patched(k, p);
    FilterSelectsOne(ks, HasTaskId(k.id), Patched(k, p));
  }

  /** Repeating an update leaves the table as the first one left it. */
  lemma PatchTaskTwice(db: Db, id: int, p: TaskPatch)
    requires PatchTask(db, id, p).out.Ok?
    ensures PatchTask(PatchTask(db, id, p).db, id, p).db == PatchTask(db, id, p).db
  {
    var once := PatchTask(db, id, p).db;
    assert once == db.(tasks := Patches(db.tasks, id, p));
    PatchKeepsTaskIds(db, id, p);
    assert PatchResolves(once, p) == PatchResolves(db, p);
    assert PatchTask(once, id, p).db == once.(tasks := Patches(once.tasks, id, p));
    PatchesTwice(db.tasks, id, p);
  }

  /** Applying the same patch to the same rows twice is applying it once. */
  lemma PatchesTwice(ks: seq<Task>, id: int, p: TaskPatch)
    ensures Patches(Patches(ks, id, p), id, p) == Patches(ks, id, p)
  {
    forall i | 0 <= i < |ks| ensures Patches(Patches(ks, id, p), id, p)[i] == Patches(ks, id, p)[i] {
      PatchedIdempotent(ks[i], p);
    }
  }

  /** A successful update changes no task's id. */
  lemma PatchKeepsTaskIds(db: Db, id: int, p: TaskPatch)
    requires PatchTask(db, id, p).out.Ok?
    ensures TaskIds(PatchTask(db, id, p).db) == TaskIds(db)
  {
    var once := PatchTask(db, id, p).db;
    PatchesKeepIds(db, id, p);
    forall x | x in TaskIds(db) ensures x in TaskIds(once) {
      var i :| 0 <= i < |db.tasks| && db.tasks[i].id == x;
      assert once.tasks[i] in once.tasks;
    }
    forall x | x in TaskIds(once) ensures x in TaskIds(db) {
      var i :| 0 <= i < |once.tasks| && once.tasks[i].id == x;
      assert db.tasks[i] in db.tasks;
    }
  }

  method UpdateTask(store: Store, id: int, p: TaskPatch) returns (r: Result<seq<Task>, DbError>)
    requires store.Valid()
    modifies store
    ensures store.Valid()
    ensures Step(store.Snapshot(), r) == PatchTask(old(store.Snapshot()), id, p)
  {
    ghost var before := store.Snapshot();
    if IsEmptyPatch(p) {
      r := Err(EmptyUpdate);
    } else if id in TaskIds(store.Snapshot()) && !PatchResolves(store.Snapshot(), p) {
      r := Err(ForeignKeyViolation);
    } else {
      var ks := Patches(store.tasks, id, p);
      r := Ok(Filter(ks, HasTaskId(id)));
      store.tasks := ks;
      assert store.Snapshot() == PatchTask(before, id, p).db;
      SameOkStep(Step(store.Snapshot(), r), PatchTask(before, id, p));
    }
    PatchTaskKeepsWellFormed(before, id, p);
  }

  // ---------------------------------------------------------------- deleteTask

  function NotTask(id: int): Task -> bool {
    (k: Task) => k.id != id
  }

  /** deleteTask: DELETE FROM tasks WHERE id; the result is the number of rows deleted. */
  function RemoveTask(db: Db, id: int): (r: Step<nat>)
    ensures r.out.Ok? && r.db.(tasks := db.tasks) == db
    ensures forall k :: k in r.db.tasks <==> k in db.tasks && k.id != id
    ensures r.out.value == |db.tasks| - |r.db.tasks|
  {
    var ks := Filter(db.tasks, NotTask(id));
    Step(db.(tasks := ks), Ok(|db.tasks| - |ks|))
  }

  /** Task ids are unique: deleteTask removes one row if the id existed, else none and changes nothing. */
  lemma RemoveTaskCount(db: Db, id: int)
    requires WellFormed(db)
    ensures WellFormed(RemoveTask(db, id).db)
    ensures RemoveTask(db, id).out.value == if id in TaskIds(db) then 1 else 0
    ensures id !in TaskIds(db) ==> RemoveTask(db, id).db == db
  {
    DeleteTasksKeepsWellFormed(db, NotTask(id));
    FilterDropsAtMostOne(db.tasks, NotTask(id));
    assert (exists k :: k in db.tasks && !NotTask(id)(k)) <==> id in TaskIds(db);
    if id !in TaskIds(db) {
      forall i | 0 <= i < |db.tasks| ensures NotTask(id)(db.tasks[i]) {
        assert db.tasks[i] in db.tasks;
      }
    }
  }

  method DeleteTask(store: Store, id: int) returns (deleted: nat)
    requires store.Valid()
    modifies store
    ensures store.Valid()
    ensures Step(store.Snapshot(), Ok(deleted)) == RemoveTask(old(store.Snapshot()), id)
  {
    ghost var before := store.Snapshot();
    var ks := Filter(store.tasks, NotTask(id));
    deleted := |store.tasks| - |ks|;
    store.tasks := ks;
    assert store.Snapshot() == before.(tasks := ks);
    RemoveTaskCount(before, id);
  }
}
