/**
 * backend/controllers/taskController.js. Each handler is a decision function from the
 * validation verdict, the caller (req.user) and the database to an Outcome; the three that
 * write also exist as methods that run the same decisions against the Store.
 */
module TaskController {
  import opened Wrappers
  import opened Schema
  import opened Params
  import opened Validators
  import opened TaskRoutes
  import opened Http
  import opened Database
  import TaskModel

  /** req.user as the handlers read it: its id and its is_admin flag. */
  datatype Caller = Caller(id: int, isAdmin: bool)

  const Unauthorized := Response(401, Message("Unauthorized"))

  /** `if (team_id)` on a query-string value: present and not the empty string. */
  predicate Truthy(q: Option<string>) {
    q.Some? && q.value != ""
  }

  // ---------------------------------------------------------------- getTasks

  /**
   * getTasks: no validation. An admin sees every task, or one team's tasks; anyone else sees
   * the tasks assigned to them. A non-admin's team filter calls getTasksByUserAndTeam, which
   * backend/models/task.js does not export, so that call throws and the handler answers 500.
   */
  function GetTasks(db: Db, caller: Option<Caller>, teamId: Option<string>): (r: Response)
    ensures caller.None? ==> r == Unauthorized
    ensures caller.Some? && caller.value.isAdmin && !Truthy(teamId) ==>
      r.status == 200 && r.payload.TaskList? && TaskModel.TasksOf(r.payload.tasks) == db.tasks
    ensures caller.Some? && caller.value.isAdmin && Truthy(teamId) && ParseInt4(teamId.value).Some? ==>
      && r.status == 200 && r.payload.TaskList?
      && forall k :: multiset(TaskModel.TasksOf(r.payload.tasks))[k] ==
           if k.teamId == ParseInt4(teamId.value) then multiset(db.tasks)[k] else 0
    ensures caller.Some? && caller.value.isAdmin && Truthy(teamId) && ParseInt4(teamId.value).None? ==>
      r == ServerError
    ensures caller.Some? && !caller.value.isAdmin && Truthy(teamId) ==> r == ServerError
    ensures caller.Some? && !caller.value.isAdmin && !Truthy(teamId) ==>
      && r.status == 200 && r.payload.TaskList?
      && forall k :: multiset(TaskModel.TasksOf(r.payload.tasks))[k] ==
           if k.assignedTo == Some(caller.value.id) then multiset(db.tasks)[k] else 0
    ensures r.status == 200 ==>
      r.payload.TaskList? && forall row :: row in r.payload.tasks ==> row == TaskModel.RowOf(db, row.task)
  {
    if caller.None? then Unauthorized
    else if caller.value.isAdmin then
      if Truthy(teamId) then
        var t := ParseInt4(teamId.value);
        if t.Some? then Response(200, TaskList(TaskModel.TasksByTeam(db, t.value))) else ServerError
      else Response(200, TaskList(TaskModel.AllTasks(db)))
    else if Truthy(teamId) then ServerError
    else Response(200, TaskList(TaskModel.TasksByUser(db, caller.value.id)))
  }

  // ---------------------------------------------------------------- createTask

  /** The five body fields createTask destructures, each readable as its column's type. */
  predicate FitsNewTask(body: Body) {
    && TextColumn(Field(body, "title")).Some? && TextColumn(Field(body, "title")).value.Some?
    && TextColumn(Field(body, "description")).Some?
    && TextColumn(Field(body, "due_date")).Some?
    && IntColumn(Field(body, "team_id")).Some?
    && IntColumn(Field(body, "assigned_to")).Some?
  }

  /**
   * createTask: 400 on a validation error, then 401 without a caller, then 403 for a
   * non-admin; only an admin's request reaches the insert. A value that does not fit its
   * column is refused by Postgres before any row is built; a foreign-key violation is
   * raised after the id sequence advanced.
   */
  function CreateTaskOutcome(c: Checks, db: Db, caller: Option<Caller>, body: Body): (o: Outcome)
    ensures TaskPostErrors(c, body) != [] ==> o == Outcome(db, BadRequest(TaskPostErrors(c, body)))
    ensures TaskPostErrors(c, body) == [] && caller.None? ==> o == Outcome(db, Unauthorized)
    ensures TaskPostErrors(c, body) == [] && caller.Some? && !caller.value.isAdmin ==>
      o == Outcome(db, Response(403, Message("Only admins can create tasks")))
    ensures o.response.status in {201, 400, 401, 403, 500}
    ensures o.db.(tasks := db.tasks, nextTaskId := db.nextTaskId) == db
    ensures o.response.status != 201 ==> o.db.tasks == db.tasks
    ensures o.response.status == 201 <==>
      && TaskPostErrors(c, body) == [] && caller.Some? && caller.value.isAdmin && FitsNewTask(body)
      && (IntColumn(Field(body, "team_id")).value.Some? ==> IntColumn(Field(body, "team_id")).value.value in TeamIds(db))
      && (IntColumn(Field(body, "assigned_to")).value.Some? ==> IntColumn(Field(body, "assigned_to")).value.value in UserIds(db))
    ensures o.response.status == 201 ==>
      && o.response.payload == TaskRecord(Task(db.nextTaskId, BoundText(Field(body, "title")),
           TextColumn(Field(body, "description")).value, TextColumn(Field(body, "due_date")).value,
           IntColumn(Field(body, "team_id")).value, IntColumn(Field(body, "assigned_to")).value))
      && o.db.tasks == db.tasks + [o.response.payload.task]
  {
    var errs := TaskPostErrors(c, body);
    if errs != [] then Outcome(db, BadRequest(errs))
    else if caller.None? then Outcome(db, Unauthorized)
    else if !caller.value.isAdmin then Outcome(db, Response(403, Message("Only admins can create tasks")))
    else if !FitsNewTask(body) then Outcome(db, ServerError)
    else
      var step := TaskModel.InsertTask(db, TextColumn(Field(body, "title")).value.value,
        TextColumn(Field(body, "description")).value, TextColumn(Field(body, "due_date")).value,
        IntColumn(Field(body, "team_id")).value, IntColumn(Field(body, "assigned_to")).value);
      if step.out.Ok? then Outcome(step.db, Response(201, TaskRecord(step.out.value)))
      else Outcome(step.db, ServerError)
  }

  /** After POST validation the title and team_id are present and never null. */
  lemma ValidatedNewTaskHasTitleAndTeam(c: Checks, body: Body)
    requires TaskPostErrors(c, body) == []
    ensures "title" in body && body["title"] != Null
    ensures "team_id" in body && body["team_id"] != Null
  {
    assert !IsNumeric("");
  }

  // ---------------------------------------------------------------- updateTask

  /** The columns of tasks an update may name. */
  const TaskColumns: set<string> := {"title", "description", "due_date", "team_id", "assigned_to"}

  /**
   * The whole body becomes the SET list: every key must be a column, every value must be
   * readable as that column's type, and title, being NOT NULL, cannot be set to null.
   */
  predicate FitsColumns(body: Body) {
    && body.Keys <= TaskColumns
    && ("title" in body ==> TextColumn(body["title"]).Some? && TextColumn(body["title"]).value.Some?)
    && ("description" in body ==> TextColumn(body["description"]).Some?)
    && ("due_date" in body ==> TextColumn(body["due_date"]).Some?)
    && ("team_id" in body ==> IntColumn(body["team_id"]).Some?)
    && ("assigned_to" in body ==> IntColumn(body["assigned_to"]).Some?)
  }

  /**
   * The patch a fitting body describes: a column is set exactly when its key is in the body,
   * to NULL for a JSON null and otherwise to the value the driver binds for it.
   */
  function PatchOf(body: Body): (p: TaskModel.TaskPatch)
    requires FitsColumns(body)
    ensures p.title.Some? <==> "title" in body
    ensures p.description.Some? <==> "description" in body
    ensures p.dueDate.Some? <==> "due_date" in body
    ensures p.teamId.Some? <==> "team_id" in body
    ensures p.assignedTo.Some? <==> "assigned_to" in body
    ensures TaskModel.IsEmptyPatch(p) <==> body == map[]
    ensures p.title.Some? ==> p.title.value == BoundText(body["title"])
    ensures p.description.Some? ==> p.description.value == if body["description"].Null? then None else Some(BoundText(body["description"]))
    ensures p.dueDate.Some? ==> p.dueDate.value == if body["due_date"].Null? then None else Some(BoundText(body["due_date"]))
    ensures p.teamId.Some? ==> p.teamId.value == if body["team_id"].Null? then None else ParseInt4(Text(body["team_id"]))
    ensures p.assignedTo.Some? ==> p.assignedTo.value == if body["assigned_to"].Null? then None else ParseInt4(Text(body["assigned_to"]))
  {
    var p := TaskModel.TaskPatch(
      if "title" in body then Some(TextColumn(body["title"]).value.value) else None,
      if "description" in body then Some(TextColumn(body["description"]).value) else None,
      if "due_date" in body then Some(TextColumn(body["due_date"]).value) else None,
      if "team_id" in body then Some(IntColumn(body["team_id"]).value) else None,
      if "assigned_to" in body then Some(IntColumn(body["assigned_to"]).value) else None);
    assert body != map[] ==> exists key :: key in body.Keys && key in TaskColumns;
    p
  }

  /**
   * updateTask: 400, 401 and 403 as for createTask. An admin's update of a body that fits
   * the columns is run; an empty body is refused by knex (500). No returned row means no
   * task had the id: 404.
   */
  function UpdateTaskOutcome(c: Checks, db: Db, caller: Option<Caller>, id: string, body: Body): (o: Outcome)
    ensures TaskPutErrors(c, body) != [] ==> o == Outcome(db, BadRequest(TaskPutErrors(c, body)))
    ensures TaskPutErrors(c, body) == [] && caller.None? ==> o == Outcome(db, Unauthorized)
    ensures TaskPutErrors(c, body) == [] && caller.Some? && !caller.value.isAdmin ==>
      o == Outcome(db, Response(403, Message("Only admins can update tasks")))
    ensures o.response.status in {200, 400, 401, 403, 404, 500}
    ensures o.db.(tasks := db.tasks) == db
    ensures o.response.status != 200 ==> o.db == db
    ensures o.response.status == 404 <==>
      && TaskPutErrors(c, body) == [] && caller.Some? && caller.value.isAdmin
      && FitsColumns(body) && body != map[] && ParseInt4(id).Some? && ParseInt4(id).value !in TaskIds(db)
    ensures o.response.status == 200 ==>
      && FitsColumns(body) && ParseInt4(id).Some?
      && o.db == TaskModel.PatchTask(db, ParseInt4(id).value, PatchOf(body)).db
      && o.response.payload.TaskRecord?
      && o.response.payload.task in o.db.tasks && o.response.payload.task.id == ParseInt4(id).value
  {
    var errs := TaskPutErrors(c, body);
    if errs != [] then Outcome(db, BadRequest(errs))
    else if caller.None? then Outcome(db, Unauthorized)
    else if !caller.value.isAdmin then Outcome(db, Response(403, Message("Only admins can update tasks")))
    else if !FitsColumns(body) || ParseInt4(id).None? then Outcome(db, ServerError)
    else
      var step := TaskModel.PatchTask(db, ParseInt4(id).value, PatchOf(body));
      if step.out.Err? then Outcome(db, ServerError)
      else if step.out.value == [] then Outcome(db, Response(404, Message("Task not found")))
      else
        assert step.out.value[0] in step.out.value;
        Outcome(step.db, Response(200, TaskRecord(step.out.value[0])))
  }

  /** After PUT validation a title that is present is never null. */
  lemma ValidatedPatchKeepsTitle(c: Checks, body: Body)
    requires TaskPutErrors(c, body) == []
    ensures "title" in body ==> body["title"] != Null
  {
  }

  /** An admin's update of an existing task answers with that task, patched. */
  lemma AdminUpdateReturnsPatched(c: Checks, db: Db, caller: Caller, k: Task, body: Body)
    requires WellFormed(db) && k in db.tasks && caller.isAdmin
    requires Int4Min <= k.id <= Int4Max
    requires UpdateTaskOutcome(c, db, Some(caller), DecimalText(k.id), body).response.status == 200
    ensures UpdateTaskOutcome(c, db, Some(caller), DecimalText(k.id), body).response.payload
      == TaskRecord(TaskModel.Patched(k, PatchOf(body)))
  {
    ParseDecimalText(k.id);
    TaskModel.PatchTaskReturnsPatched(db, k, PatchOf(body));
  }

  // ---------------------------------------------------------------- deleteTask

  /** deleteTask: no validation; 401, then 403, then the delete, whose count 0 means 404. */
  function DeleteTaskOutcome(db: Db, caller: Option<Caller>, id: string): (o: Outcome)
    ensures caller.None? ==> o == Outcome(db, Unauthorized)
    ensures caller.Some? && !caller.value.isAdmin ==>
      o == Outcome(db, Response(403, Message("Only admins can delete tasks")))
    ensures o.response.status in {200, 401, 403, 404, 500}
    ensures o.db.(tasks := db.tasks) == db
    ensures o.response.status != 200 ==> o.db == db
    ensures o.response.status == 200 ==>
      && caller.Some? && caller.value.isAdmin && ParseInt4(id).Some?
      && o.response == Response(200, Message("Task deleted successfully"))
      && forall k :: k in o.db.tasks <==> k in db.tasks && k.id != ParseInt4(id).value
  {
    if caller.None? then Outcome(db, Unauthorized)
    else if !caller.value.isAdmin then Outcome(db, Response(403, Message("Only admins can delete tasks")))
    else if ParseInt4(id).None? then Outcome(db, ServerError)
    else
      var step := TaskModel.RemoveTask(db, ParseInt4(id).value);
      if step.out.value == 0 then Outcome(db, Response(404, Message("Task not found")))
      else Outcome(step.db, Response(200, Message("Task deleted successfully")))
  }

  /** On a well-formed database an admin's delete answers 404 exactly when no task has the id. */
  lemma AdminDeleteFindsTask(db: Db, caller: Option<Caller>, id: string)
    requires WellFormed(db)
    ensures caller.Some? && caller.value.isAdmin && ParseInt4(id).Some? ==>
      DeleteTaskOutcome(db, caller, id).response.status == if ParseInt4(id).value in TaskIds(db) then 200 else 404
    ensures WellFormed(DeleteTaskOutcome(db, caller, id).db)
  {
    if ParseInt4(id).Some? {
      TaskModel.RemoveTaskCount(db, ParseInt4(id).value);
    }
  }

  // ---------------------------------------------------------------- authorisation

  /**
   * No caller: every handler answers 401, or 400 from validation, and nothing changes.
   * Nothing in the server sets req.user, so this is the fate of every task request.
   */
  lemma NoCallerChangesNothing(c: Checks, db: Db, teamId: Option<string>, id: string, body: Body)
    ensures GetTasks(db, None, teamId) == Unauthorized
    ensures CreateTaskOutcome(c, db, None, body).db == db
    ensures CreateTaskOutcome(c, db, None, body).response.status in {400, 401}
    ensures UpdateTaskOutcome(c, db, None, id, body).db == db
    ensures UpdateTaskOutcome(c, db, None, id, body).response.status in {400, 401}
    ensures DeleteTaskOutcome(db, None, id) == Outcome(db, Unauthorized)
  {
  }

  /** A non-admin never changes the database: every writing handler answers 400 or 403. */
  lemma NonAdminChangesNothing(c: Checks, db: Db, caller: Caller, id: string, body: Body)
    requires !caller.isAdmin
    ensures CreateTaskOutcome(c, db, Some(caller), body).db == db
    ensures CreateTaskOutcome(c, db, Some(caller), body).response.status in {400, 403}
    ensures UpdateTaskOutcome(c, db, Some(caller), id, body).db == db
    ensures UpdateTaskOutcome(c, db, Some(caller), id, body).response.status in {400, 403}
    ensures DeleteTaskOutcome(db, Some(caller), id).db == db
    ensures DeleteTaskOutcome(db, Some(caller), id).response.status == 403
  {
  }

  /** Validation is decided before anything else: the answer to an invalid body depends on nothing but the body. */
  lemma ValidationComesFirst(c: Checks, db1: Db, db2: Db, caller1: Option<Caller>, caller2: Option<Caller>,
                             id1: string, id2: string, body: Body)
    ensures TaskPostErrors(c, body) != [] ==>
      CreateTaskOutcome(c, db1, caller1, body).response == CreateTaskOutcome(c, db2, caller2, body).response
    ensures TaskPutErrors(c, body) != [] ==>
      UpdateTaskOutcome(c, db1, caller1, id1, body).response == UpdateTaskOutcome(c, db2, caller2, id2, body).response
  {
  }

  /** Each writing handler keeps the schema's invariant. */
  lemma CreateTaskKeepsWellFormed(c: Checks, db: Db, caller: Option<Caller>, body: Body)
    requires WellFormed(db)
    ensures WellFormed(CreateTaskOutcome(c, db, caller, body).db)
  {
    if TaskPostErrors(c, body) == [] && caller.Some? && caller.value.isAdmin && FitsNewTask(body) {
      TaskModel.InsertTaskKeepsWellFormed(db, TextColumn(Field(body, "title")).value.value,
        TextColumn(Field(body, "description")).value, TextColumn(Field(body, "due_date")).value,
        IntColumn(Field(body, "team_id")).value, IntColumn(Field(body, "assigned_to")).value);
    }
  }

  lemma UpdateTaskKeepsWellFormed(c: Checks, db: Db, caller: Option<Caller>, id: string, body: Body)
    requires WellFormed(db)
    ensures WellFormed(UpdateTaskOutcome(c, db, caller, id, body).db)
  {
    if FitsColumns(body) && ParseInt4(id).Some? {
      TaskModel.PatchTaskKeepsWellFormed(db, ParseInt4(id).value, PatchOf(body));
    }
  }

  // ---------------------------------------------------------------- against the Store

  method CreateTask(store: Store, c: Checks, caller: Option<Caller>, body: Body) returns (resp: Response)
    requires store.Valid()
    modifies store
    ensures store.Valid()
    ensures Outcome(store.Snapshot(), resp) == CreateTaskOutcome(c, old(store.Snapshot()), caller, body)
  {
    var errs := TaskPostErrors(c, body);
    if errs != [] {
      return BadRequest(errs);
    }
    if caller.None? {
      return Unauthorized;
    }
    if !caller.value.isAdmin {
      return Response(403, Message("Only admins can create tasks"));
    }
    if !FitsNewTask(body) {
      return ServerError;
    }
    var r := TaskModel.CreateTask(store, TextColumn(Field(body, "title")).value.value,
      TextColumn(Field(body, "description")).value, TextColumn(Field(body, "due_date")).value,
      IntColumn(Field(body, "team_id")).value, IntColumn(Field(body, "assigned_to")).value);
    resp := if r.Ok? then Response(201, TaskRecord(r.value)) else ServerError;
  }

  method UpdateTask(store: Store, c: Checks, caller: Option<Caller>, id: string, body: Body) returns (resp: Response)
    requires store.Valid()
    modifies store
    ensures store.Valid()
    ensures Outcome(store.Snapshot(), resp) == UpdateTaskOutcome(c, old(store.Snapshot()), caller, id, body)
  {
    var errs := TaskPutErrors(c, body);
    if errs != [] {
      return BadRequest(errs);
    }
    if caller.None? {
      return Unauthorized;
    }
    if !caller.value.isAdmin {
      return Response(403, Message("Only admins can update tasks"));
    }
    var n := ParseInt4(id);
    if !FitsColumns(body) || n.None? {
      return ServerError;
    }
    var r := TaskModel.UpdateTask(store, n.value, PatchOf(body));
    if r.Err? {
      resp := ServerError;
    } else if r.value == [] {
      resp := Response(404, Message("Task not found"));
    } else {
      resp := Response(200, TaskRecord(r.value[0]));
    }
  }

  method DeleteTask(store: Store, caller: Option<Caller>, id: string) returns (resp: Response)
    requires store.Valid()
    modifies store
    ensures store.Valid()
    ensures Outcome(store.Snapshot(), resp) == DeleteTaskOutcome(old(store.Snapshot()), caller, id)
  {
    if caller.None? {
      return Unauthorized;
    }
    if !caller.value.isAdmin {
      return Response(403, Message("Only admins can delete tasks"));
    }
    var n := ParseInt4(id);
    if n.None? {
      return ServerError;
    }
    ghost var before := store.Snapshot();
    var deleted := TaskModel.DeleteTask(store, n.value);
    if deleted == 0 {
      resp := Response(404, Message("Task not found"));
      TaskModel.RemoveTaskCount(before, n.value);
    } else {
      resp := Response(200, Message("Task deleted successfully"));
    }
  }
}
