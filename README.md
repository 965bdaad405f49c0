# Task manager backend, modelled in Dafny

This project models the server side of a small task manager. Users register and log in.
Signed-in users create teams and add members to them. Admins create, update and delete
tasks, which belong to a team and may be assigned to a user. The model covers:

- the PostgreSQL schema the two migrations create: four tables, keys, foreign keys and the
  ON DELETE CASCADE the second migration adds (`Schema`, `CascadeMigration`);
- every statement of `backend/models/*.js`, as a pure step function on a database value
  and, for the statements that write, a method that performs the same writes on a mutable
  `Store` (`UserModel`, `TeamModel`, `TaskModel`, with the invariant lemmas in `Integrity`);
- the validation chains of `backend/routes/*.js` over a JSON body (`Validators`,
  `AuthRoutes`, `TaskRoutes`, `TeamRoutes`);
- the request-decision logic of the three controllers, as functions from the validation
  verdict, the caller and the database to a response and a new database, with methods
  against the `Store` and the `Session` (`TaskController`, `TeamController`,
  `AuthController`);
- how a JSON value or a route parameter reaches an integer or text column (`Http`, `Params`).

A database is a `Db`: the rows of each table in storage order plus the next value of each
serial sequence. `WellFormed` is the invariant the constraints maintain:

- primary keys and the unique email hold;
- every non-null foreign key resolves;
- every id lies below its sequence.

Every writing operation is proved to keep it.

A few behaviours of the code as written are worth knowing:

- The handlers of taskController read `req.user`, but no middleware sets it. Nothing is mounted before
  the routers at backend/server.js:66-68. So every task request ends in 400 or 401, and
  `TaskController.NoCallerChangesNothing` states that outcome. The model still takes the
  caller as an input, so the admin and non-admin paths are modelled too.
- backend/routes/teams.js:38-47 binds three handlers that teamController does not export.
  Express's router refuses an undefined handler, so loading that file throws. The model
  takes each handler on its own. The member operations of the model layer are modelled in
  full.
- A non-admin's `getTasks` with a team filter calls `getTasksByUserAndTeam`, which
  backend/models/task.js does not export. The call throws, and the handler answers 500.
- The team handlers check only that a session exists. Any signed-in user may rename or
  delete any team.

## Model

| member | source | states |
|---|---|---|
| Schema.UserWithId | backend/models/task.js:21 | the left join on users.id finds a user exactly when one has that id, and the one it finds has it |
| Schema.TeamWithId | backend/models/task.js:20 | the left join on teams.id finds a team exactly when one has that id, and the one it finds has it |
| Rows.First | backend/models/user.js:8 | the first match is found iff some row satisfies the condition, and it is a stored row that does |
| Schema.EmptyWellFormed | backend/migrations/20250606063920_init_schema.js:1-27 | the freshly migrated, empty database satisfies every constraint |
| Schema.IndexOf | backend/migrations/20250606063920_init_schema.js:29-34 | the position found is the first occurrence of the table in the order |
| Schema.MigrationOrderRespectsReferences | backend/migrations/20250606063920_init_schema.js:1-35 | up creates each referenced table before its referrers; down drops the tables in the reverse order, so every referrer goes before its target |
| Integrity.DeleteMembershipsKeepsWellFormed | backend/migrations/20250606063920_init_schema.js:14-18 | deleting any memberships keeps every constraint |
| Integrity.DeleteTasksKeepsWellFormed | backend/migrations/20250606063920_init_schema.js:19-26 | deleting any tasks keeps every constraint |
| Integrity.DeleteTeamsKeepsWellFormed | backend/migrations/20250606063920_init_schema.js:9-26 | deleting teams keeps every constraint provided no membership or task still points at a deleted team |
| Integrity.UpdateTeamsKeepsWellFormed | backend/migrations/20250606063920_init_schema.js:9-13 | rewriting team rows in place while keeping their ids and creators keeps every constraint |
| Integrity.InsertMembershipsKeepsWellFormed | backend/migrations/20250606063920_init_schema.js:14-18 | appending distinct new pairs whose user and team exist keeps every constraint |
| Integrity.UpdateTasksKeepsWellFormed | backend/migrations/20250606063920_init_schema.js:19-26 | rewriting task rows in place with the same ids and resolving references keeps every constraint |
| Integrity.AppendTaskKeepsWellFormed | backend/migrations/20250606063920_init_schema.js:19-26 | appending a task with the next serial id and resolving references keeps every constraint |
| Integrity.AppendUserKeepsWellFormed | backend/migrations/20250606063920_init_schema.js:3-8 | appending a user with the next serial id and an email not yet stored keeps every constraint |
| Integrity.SkipTaskIdKeepsWellFormed | backend/migrations/20250606063920_init_schema.js:20 | a failed insert that only consumes a task id keeps every constraint |
| Integrity.SkipUserIdKeepsWellFormed | backend/migrations/20250606063920_init_schema.js:4 | a failed insert that only consumes a user id keeps every constraint |
| UserModel.InsertUser | backend/models/user.js:3-5 | the sequence advances; the insert succeeds iff the email is new, appends exactly one row and returns id, email and is_admin but not the hash; an omitted is_admin is false; a duplicate email leaves users unchanged |
| UserModel.InsertUserKeepsWellFormed | backend/models/user.js:3-5 | createUser keeps the invariant and hands out an id no user had |
| UserModel.FindUserByEmail | backend/models/user.js:7-9 | finds a user iff one has exactly that email, and returns a stored row with that email |
| UserModel.FindUserByEmailIsUnique | backend/models/user.js:7-9 | on a well-formed database the lookup returns the one user with that email |
| UserModel.CreateUser | backend/models/user.js:3-5 | the store afterwards and the result are those of InsertUser, and the store stays valid |
| TeamModel.RowOf | backend/models/teams.js:7-11 | a team's creator_email is present iff its creator row exists, and is that user's email |
| TeamModel.AllTeams | backend/models/teams.js:7-11 | getAllTeams gives one row per team, in table order, each the team joined with its creator's email as RowOf states |
| TeamModel.TeamById | backend/models/teams.js:13-19 | getTeamById finds a row iff a team has that id, and the row is that team joined with its creator's email |
| TeamModel.InsertTeam | backend/models/teams.js:3-5 | the sequence advances; the insert succeeds iff the creator exists, appends exactly one team with that name and creator and returns it; other tables are unchanged |
| TeamModel.InsertTeamKeepsWellFormed | backend/models/teams.js:3-5 | createTeam keeps the invariant and the new id was not in use |
| TeamModel.CreateTeam | backend/models/teams.js:3-5 | the store afterwards and the result are those of InsertTeam |
| TeamModel.RenameTeam | backend/models/teams.js:21-23 | only the name of the team with that id changes; every other row and table is unchanged; the returned rows are exactly the renamed ones, none iff the id is absent |
| TeamModel.RenameTeamKeepsWellFormed | backend/models/teams.js:21-23 | updateTeam keeps the invariant |
| TeamModel.Renamed | backend/models/teams.js:22 | every team keeps its position, id and creator; exactly the teams with the id take the new name |
| TeamModel.RenameTeamReturnsRenamed | backend/models/teams.js:21-23 | on an existing team, updateTeam returns exactly that team with the new name |
| TeamModel.UpdateTeam | backend/models/teams.js:21-23 | the store afterwards and the rows returned are those of RenameTeam |
| TeamModel.RemoveTeam | backend/models/teams.js:26-39 | afterwards no membership and no task has that team_id and the team is gone; every other row is kept and users and sequences are unchanged; the result counts the team rows removed |
| TeamModel.DeleteTeamCascades | backend/models/teams.js:26-39 | deleteTeam keeps the invariant and returns 1 if the team existed, else 0 with nothing changed |
| TeamModel.DeleteTeamCount | backend/models/teams.js:33-37 | on a well-formed database the team delete counts 1 iff the team existed, else 0 |
| TeamModel.DeleteTeamStepsKeepWellFormed | backend/models/teams.js:29-35 | each of the transaction's three deletes leaves a well-formed database |
| TeamModel.DeleteAbsentTeamChangesNothing | backend/models/teams.js:26-39 | deleting a team id nobody has changes nothing |
| TeamModel.DeleteTeam | backend/models/teams.js:26-39 | the three deletes on the store, taken as one step, leave what RemoveTeam describes and return its count |
| TeamModel.DeleteMembershipsOfTeam | backend/models/teams.js:29 | the store afterwards differs only in memberships, which keep exactly the rows of other teams |
| TeamModel.DeleteTasksOfTeam | backend/models/teams.js:32 | the store afterwards differs only in tasks, which keep exactly the tasks of other teams |
| TeamModel.DeleteTeamItself | backend/models/teams.js:35-37 | the store afterwards differs only in teams, which lose the rows with the id, and the result counts them |
| TeamModel.MembersOf | backend/models/teams.js:45 | the membership rows the join on team_id matches are exactly those of the team |
| TeamModel.JoinedMemberships | backend/models/teams.js:45 | the left join yields as many rows as the team has memberships, or one null row when it has none |
| TeamModel.WhereMemberOrCreator | backend/models/teams.js:46-47 | the WHERE keeps every joined row when the user is the creator, otherwise the rows whose membership is the user's |
| TeamModel.UserTeamsMultiplicity | backend/models/teams.js:41-48 | getUserTeams lists a team once per membership row if the user created it (at least once), once if the user is only a member, and not at all otherwise |
| TeamModel.UserTeamsRepeatsCreatedTeam | backend/models/teams.js:41-48 | on a concrete well-formed database a creator with two other members sees the team twice, and the distinct query shows it once |
| TeamModel.UserTeamsDistinctOnce | backend/models/teams.js:41-48 | the distinct query lists a team exactly once iff the user created it or is a member |
| TeamModel.UserTeamsAgreeUnlessCreatorWithMembers | backend/models/teams.js:41-48 | the query as written and the distinct query agree on every team except one created by the user that has members |
| TeamModel.TeamMembers | backend/models/teams.js:51-56 | getTeamMembers returns exactly the id and email of the users holding a membership of the team |
| TeamModel.NewMemberships | backend/models/teams.js:59-62 | one (user, team) row per listed id, in order |
| TeamModel.NewMembershipsDistinct | backend/models/teams.js:59-62 | the new rows repeat a pair iff the userIds list repeats an id |
| TeamModel.InsertMemberships | backend/models/teams.js:58-65 | the insert succeeds iff no listed pair is already stored, no id repeats, every listed user exists and, for a non-empty list, the team exists; then it appends exactly the new rows and counts them; a failed insert changes nothing, and an existing pair is a unique violation |
| TeamModel.InsertMembershipsKeepsWellFormed | backend/models/teams.js:58-65 | addTeamMembers keeps the invariant |
| TeamModel.AddingAMemberTwiceConflicts | backend/migrations/20250606063920_init_schema.js:17 | adding a user who is already a member of the team is refused by the pair's primary key and changes nothing |
| TeamModel.AddTeamMembers | backend/models/teams.js:58-65 | the store afterwards and the result are those of InsertMemberships |
| TeamModel.RemoveMembership | backend/models/teams.js:67-71 | only the (user, team) pair is deleted, every other membership and table is kept, and the count is what was removed |
| TeamModel.RemoveMembershipCount | backend/models/teams.js:67-71 | removeTeamMember keeps the invariant and returns 1 if the pair existed, else 0 |
| TeamModel.RemoveTeamMember | backend/models/teams.js:67-71 | the store afterwards and the count are those of RemoveMembership |
| TaskModel.RowOf | backend/models/task.js:13-22 | team_name and assignee_email are present iff the referenced row exists, and carry its name or email |
| TaskModel.JoinRows | backend/models/task.js:13-22 | the joined rows carry exactly the given tasks, in order, each with its own joined names |
| TaskModel.AllTasks | backend/models/task.js:13-22 | getAllTasks returns every stored task, in order, each with its joined names |
| TaskModel.TasksByTeam | backend/models/task.js:24-34 | getTasksByTeam returns exactly the tasks whose team_id is the given team, as often as stored |
| TaskModel.TasksByUser | backend/models/task.js:36-46 | getTasksByUser returns exactly the tasks assigned to the user, as often as stored |
| TaskModel.QueriesListEachTaskOnce | backend/models/task.js:13-46 | on a well-formed database each of the three queries lists each matching task exactly once |
| TaskModel.InsertTask | backend/models/task.js:3-11 | the sequence advances; the insert succeeds iff the team and assignee given exist, appends exactly one task carrying the five given fields and a fresh id, and returns it |
| TaskModel.InsertTaskKeepsWellFormed | backend/models/task.js:3-11 | createTask keeps the invariant and the new id was not in use |
| TaskModel.CreateTask | backend/models/task.js:3-11 | the store afterwards and the result are those of InsertTask |
| TaskModel.PatchedIdempotent | backend/models/task.js:48-53 | writing the same columns twice equals writing them once; an empty patch changes nothing; the id is kept |
| TaskModel.PatchesKeepIds | backend/models/task.js:49-51 | the updated table still holds a task with the id iff it held one, and is untouched when none |
| TaskModel.PatchTask | backend/models/task.js:48-53 | an empty patch is refused; a foreign key is checked only if a row matched; on success only the supplied fields of the row with that id change, other tasks and tables are kept, the returned rows are the updated ones and none iff the id is absent |
| TaskModel.PatchTaskKeepsWellFormed | backend/models/task.js:48-53 | updateTask keeps the invariant |
| TaskModel.PatchTaskReturnsPatched | backend/models/task.js:48-53 | on an existing task, a successful update returns exactly that task, patched |
| TaskModel.PatchTaskTwice | backend/models/task.js:48-53 | repeating a successful update leaves the table as the first one left it |
| TaskModel.PatchesTwice | backend/models/task.js:49-51 | applying the same patch to the rows a second time changes nothing |
| TaskModel.PatchKeepsTaskIds | backend/models/task.js:48-53 | a successful update leaves the set of task ids unchanged |
| TaskModel.UpdateTask | backend/models/task.js:48-53 | the store afterwards and the result are those of PatchTask |
| TaskModel.RemoveTask | backend/models/task.js:55-57 | only tasks with that id are deleted, everything else is kept, and the count is what was removed |
| TaskModel.RemoveTaskCount | backend/models/task.js:55-57 | deleteTask keeps the invariant and returns 1 if a task with the id existed, else 0 with nothing changed |
| TaskModel.DeleteTask | backend/models/task.js:55-57 | the store afterwards and the count are those of RemoveTask |
| Params.ParseInt4 | backend/migrations/20250606063920_init_schema.js:24-25 | a text read as an integer column gives a value in the int4 range, and only when it starts with a digit or a sign |
| Params.Digits | backend/migrations/20250606063920_init_schema.js:20 | the decimal digits of a number, without leading zero, read back as that number |
| Params.DecimalText | backend/migrations/20250606063920_init_schema.js:20 | the decimal spelling of an integer: digits, with a minus sign for negatives |
| Params.ParseDecimalText | backend/migrations/20250606063920_init_schema.js:20 | every int4 value's decimal spelling reads back as that value |
| Params.ParseIgnoresSpelling | backend/migrations/20250606063920_init_schema.js:24-25 | a leading plus sign or zero does not change the integer read |
| Http.TextColumn | backend/migrations/20250606063920_init_schema.js:21-22 | a JSON value reaches a text column as its text, an object as its JSON text, null as NULL; an array does not fit |
| Http.IntColumn | backend/migrations/20250606063920_init_schema.js:24-25 | a JSON value reaches an integer column iff it is null, an int4 number, or a string read as int4, and then as that integer; booleans, arrays and objects never do |
| Http.IdsRoundTrip | backend/migrations/20250606063920_init_schema.js:20 | every id Postgres hands out comes back intact as a route parameter or as a body value |
| Validators.Chain | backend/routes/tasks.js:12-15 | a one-check chain reports nothing iff the field is optional and absent or every value the check runs on passes; every error carries the chain's path and message, and a scalar gives at most one |
| Validators.Failures | backend/routes/auth.js:10-12 | a standard check reports no error iff every value it runs on passes, every error carries the given path and message, and there are no more errors than values |
| Validators.FailuresCount | backend/routes/auth.js:10-12 | a standard check reports exactly as many errors as there are values that fail it |
| Validators.ChainCountsFailures | backend/routes/auth.js:10 | a chain that runs gives one error per value its check refuses: one per failing item of an array |
| Validators.Int4TextIsNumeric | backend/routes/tasks.js:13 | every text read as an int4 passes isNumeric |
| Validators.NumericIsNotInt4 | backend/routes/tasks.js:13 | isNumeric also accepts "1.5", which no integer column reads |
| AuthRoutes.RegisterErrors | backend/routes/auth.js:7-15 | register passes iff the email passes isEmail, the password has at least 6 characters, and a present is_admin is a boolean spelling |
| AuthRoutes.LoginErrors | backend/routes/auth.js:17-24 | login passes iff the email passes isEmail and a password key is present, of any length |
| AuthRoutes.RegisterBodyPassesLogin | backend/routes/auth.js:10-21 | every body register accepts, login accepts |
| AuthRoutes.ShortPasswordOnlyRefusedAtRegister | backend/routes/auth.js:11 | a 3-character password is refused at register with its message and accepted at login |
| AuthRoutes.EachFailingEmailIsReported | backend/routes/auth.js:10 | an email array of two non-emails gives two "Valid email required" errors |
| TaskRoutes.TaskPostErrors | backend/routes/tasks.js:9-18 | POST passes iff title is non-empty, team_id is numeric, a present due_date is ISO 8601 and a present assigned_to is numeric |
| TaskRoutes.TaskPutErrors | backend/routes/tasks.js:20-29 | PUT passes iff every present field obeys its rule; a present title must be non-empty |
| TaskRoutes.PostBodyPassesPut | backend/routes/tasks.js:12-26 | every body POST accepts, PUT accepts |
| TaskRoutes.EmptyBodyOnlyPassesPut | backend/routes/tasks.js:12-26 | an empty body passes PUT and fails POST on title and team_id |
| TeamRoutes.TeamNameErrors | backend/routes/teams.js:19-33 | POST / and PUT /:id pass iff the name is non-empty |
| TeamRoutes.ItemErrorsEmpty | backend/routes/teams.js:43 | userIds.* reports no error iff every item passes the check, an array item checked item by item |
| TeamRoutes.ItemErrorNamesFailure | backend/routes/teams.js:43 | every item error names the path of a failing item |
| TeamRoutes.FailureIsNamed | backend/routes/teams.js:43 | every failing item is named by an error at its path |
| TeamRoutes.MembersErrors | backend/routes/teams.js:42-43 | passes iff userIds is a non-empty array whose items (nested arrays item by item) are numeric; the array error appears iff it is not; each item error names a failing item's path, and each failing item is named |
| TeamRoutes.ItemsNamedByPosition | backend/routes/teams.js:43 | for isNumeric and the `userIds[i]` paths: no error iff every item passes, every error carries the item message and names a failing item, and every failing item is named |
| TeamRoutes.NestedNumericIdsPass | backend/routes/teams.js:43 | a userIds of one nested array of numbers passes, since the inner array is checked item by item |
| TeamRoutes.MemberRoutesAreUnbound | backend/routes/teams.js:17-47 | the four team routes name controller exports; the three member routes name handlers the controller does not define |
| TeamRoutes.DeleteRoutesAreUnvalidated | backend/routes/teams.js:19-47 | the DELETE routes carry no validation and the POST and PUT routes do |
| TaskController.GetTasks | backend/controllers/taskController.js:12-45 | no caller is 401; an admin gets all tasks, or exactly one team's, or 500 on a team id that is not an integer; a non-admin gets exactly the tasks assigned to them, and 500 with a team filter |
| TaskController.CreateTaskOutcome | backend/controllers/taskController.js:47-71 | 400 before 401 before 403; only an admin's valid request inserts; 201 iff the values fit and the references resolve, with the inserted row; otherwise tasks are unchanged |
| TaskController.ValidatedNewTaskHasTitleAndTeam | backend/routes/tasks.js:12-13 | after POST validation, title and team_id are present and not null |
| TaskController.PatchOf | backend/controllers/taskController.js:73-101 | a column is set exactly when its key is in the body: to NULL for null, to the bound text for title, description and due_date, to the int4 reading for team_id and assigned_to; the patch is empty iff the body is |
| TaskController.UpdateTaskOutcome | backend/controllers/taskController.js:73-101 | 400 before 401 before 403; only an admin changes tasks; 404 iff the body fits and no task has the id, with nothing changed; 200 returns the updated task |
| TaskController.ValidatedPatchKeepsTitle | backend/routes/tasks.js:23 | after PUT validation, a title that is present is not null |
| TaskController.AdminUpdateReturnsPatched | backend/controllers/taskController.js:92-96 | an admin's successful update of an existing task answers with that task, patched |
| TaskController.DeleteTaskOutcome | backend/controllers/taskController.js:103-125 | 401 before 403; only an admin deletes; 200 removes exactly the tasks with that id |
| TaskController.AdminDeleteFindsTask | backend/controllers/taskController.js:116-120 | an admin's delete answers 200 iff a task with the id exists and 404 otherwise, and keeps the invariant |
| TaskController.NoCallerChangesNothing | backend/controllers/taskController.js:14-16 | without a caller every handler answers 401, or 400 from validation, and nothing changes |
| TaskController.NonAdminChangesNothing | backend/controllers/taskController.js:61-63 | a non-admin never changes the database; the writing handlers answer 400 or 403 |
| TaskController.ValidationComesFirst | backend/controllers/taskController.js:48-51 | an invalid body gets the same answer whatever the caller and the database |
| TaskController.CreateTaskKeepsWellFormed | backend/controllers/taskController.js:47-71 | createTask keeps the invariant |
| TaskController.UpdateTaskKeepsWellFormed | backend/controllers/taskController.js:73-101 | updateTask keeps the invariant |
| TaskController.CreateTask | backend/controllers/taskController.js:47-71 | the handler on the store leaves the database and sends the response CreateTaskOutcome describes |
| TaskController.UpdateTask | backend/controllers/taskController.js:73-101 | the handler on the store leaves the database and sends the response UpdateTaskOutcome describes |
| TaskController.DeleteTask | backend/controllers/taskController.js:103-124 | the handler on the store leaves the database and sends the response DeleteTaskOutcome describes |
| TeamController.GetTeams | backend/controllers/teamController.js:11-26 | no session is 401; any signed-in user gets every team in table order, each with its creator_email |
| TeamController.ValidatedNameIsNotNull | backend/routes/teams.js:22 | after validation the name is present and not null |
| TeamController.CreateTeamOutcome | backend/controllers/teamController.js:28-51 | 400 before 401; 201 iff signed in, the name fits and the session's user exists, with a new team whose creator is that user; otherwise teams are unchanged |
| TeamController.UpdateTeamOutcome | backend/controllers/teamController.js:53-76 | 400 before 401; 404 iff no team has the id, with nothing changed; 200 returns the renamed team |
| TeamController.DeleteTeamOutcome | backend/controllers/teamController.js:78-94 | no session is 401 with nothing changed; 200 and 404 follow the cascading delete, and 200 only for a team that existed |
| TeamController.NoSessionChangesNothing | backend/controllers/teamController.js:16-18 | without a session every handler answers 401, or 400 from validation, and nothing changes |
| TeamController.AnySignedInUserMayWrite | backend/controllers/teamController.js:63-67 | any two signed-in users get the same listing, rename and delete: there is no admin or ownership check |
| TeamController.ValidationComesFirst | backend/controllers/teamController.js:33-36 | an invalid name gets the same answer whatever the session and the database |
| TeamController.MissingTeamIsNotFound | backend/controllers/teamController.js:67-70 | renaming or deleting a missing team is 404 with nothing changed |
| TeamController.DeleteExistingTeam | backend/controllers/teamController.js:86-90 | deleting an existing team answers 200 and removes it with its memberships and tasks |
| TeamController.CreateTeamKeepsWellFormed | backend/controllers/teamController.js:28-51 | createTeam keeps the invariant |
| TeamController.UpdateTeamKeepsWellFormed | backend/controllers/teamController.js:53-76 | updateTeam keeps the invariant |
| TeamController.DeleteTeamKeepsWellFormed | backend/controllers/teamController.js:78-94 | deleteTeam keeps the invariant |
| TeamController.CreateTeam | backend/controllers/teamController.js:28-51 | the handler on the store and session does what CreateTeamOutcome describes |
| TeamController.UpdateTeam | backend/controllers/teamController.js:53-76 | the handler on the store and session does what UpdateTeamOutcome describes |
| TeamController.DeleteTeam | backend/controllers/teamController.js:78-94 | the handler on the store and session does what DeleteTeamOutcome describes |
| AuthController.EmailOf | backend/controllers/authController.js:13-15 | the email is looked up only when it is a scalar value, and then as its text |
| AuthController.AdminFlag | backend/controllers/authController.js:21 | an absent is_admin is stored as false, and a value is stored as true only when it reads "true" or "1" |
| AuthController.ValidatedAdminFlag | backend/routes/auth.js:12 | after validation a scalar is_admin is stored as true iff it reads "true" or "1"; an array is refused |
| AuthController.Register | backend/controllers/authController.js:5-43 | 400 on validation; a taken email is 400 with nothing changed; otherwise exactly one user is added with the hash of the password, the new user is signed in, and the response is 201 with id, email and is_admin, or 500 if the session is not saved |
| AuthController.Login | backend/controllers/authController.js:45-82 | the database never changes; an unknown email is 400 "Invalid credentials"; the stored user is signed in iff the password matches its hash, then 200 with id, email and is_admin |
| AuthController.DuplicateEmailInsertsNothing | backend/controllers/authController.js:15-18 | registering a taken email answers "Email already in use", changes nothing and signs nobody in |
| AuthController.InvalidCredentialsAreIdentical | backend/controllers/authController.js:53-61 | an unknown email and a wrong password give the identical outcome |
| AuthController.ValidationComesFirst | backend/controllers/authController.js:8-11 | an invalid body gets the same answer whatever the database |
| AuthController.RegisterKeepsWellFormed | backend/controllers/authController.js:20-21 | register keeps the invariant |
| AuthController.RegisterThenLogin | backend/controllers/authController.js:20-66 | with a sound bcrypt, logging in with the body just registered signs in the same user, whose session passes the team handlers' check |
| AuthController.LoginSignsInStoredUser | backend/controllers/authController.js:64-66 | login signs in a stored user with that email, and its id is never the falsy 0 |
| AuthController.RegisterUser | backend/controllers/authController.js:5-43 | on the store and session: the database and response are Register's, and the session holds the new user's id, email and is_admin, or is unchanged |
| AuthController.LoginUser | backend/controllers/authController.js:45-82 | on the session: the response is Login's, and the session holds the user's id, email and is_admin, or is unchanged |
| CascadeMigration.WithOnDelete | backend/migrations/20250607034038_add_cascade_deletes.js:2-7 | replacing a key's rule keeps its columns and target and every other key |
| CascadeMigration.UpCascadesOnlyTeamKeys | backend/migrations/20250607034038_add_cascade_deletes.js:1-9 | after up exactly the two keys pointing at teams cascade; the user-side keys stay non-cascading |
| CascadeMigration.DownUndoesUp | backend/migrations/20250607034038_add_cascade_deletes.js:11-18 | down restores the first migration's keys exactly |
| CascadeMigration.CascadeRules | backend/migrations/20250607034038_add_cascade_deletes.js:1-18 | both team_id keys cascade after up and do not under the first migration |
| CascadeMigration.RuleOf | backend/migrations/20250607034038_add_cascade_deletes.js:2-7 | a cascading rule found belongs to a declared key on that column |
| CascadeMigration.DeleteTeamRow | backend/migrations/20250607034038_add_cascade_deletes.js:1-9 | deleting a team row fails, changing nothing, iff a row still points at it through a non-cascading key; otherwise only that team goes, with the rows of cascading keys |
| CascadeMigration.CascadingDeleteIsDeleteTeam | backend/migrations/20250607034038_add_cascade_deletes.js:2-7 | where both team_id keys cascade, deleting the team row alone equals the whole of deleteTeam |
| CascadeMigration.CascadeDeleteIsDeleteTeam | backend/migrations/20250607034038_add_cascade_deletes.js:1-9 | under up's keys, deleting the team row alone equals the whole of deleteTeam |
| CascadeMigration.InitialKeysRefuseTeamWithMembers | backend/migrations/20250606063920_init_schema.js:16 | under the first migration's keys, deleting a team with members fails and changes nothing |
| CascadeMigration.Cleared | backend/models/teams.js:29-32 | deleteTeam's first two statements remove exactly the team's memberships and tasks |
| CascadeMigration.ClearedDeleteIsDeleteTeam | backend/models/teams.js:26-39 | once the children are gone the team row's delete cannot fail, whatever the keys' rules, and completes deleteTeam |
| CascadeMigration.ChildrenFirstNeedsNoCascade | backend/models/teams.js:26-39 | deleteTeam has the same effect before and after the cascade migration |

## Findings

| source | as written | input that shows it | evidently intended | confidence | as-written member | corrected member |
|---|---|---|---|---|---|---|
| backend/models/teams.js:41-48 | getUserTeams left-joins memberships and keeps every joined row of a team the user created | user 1 creates team 1, users 2 and 3 are its members: getUserTeams(1) lists team 1 twice | each team the user created or belongs to, once | not executed | TeamModel.UserTeamsRepeatsCreatedTeam | TeamModel.UserTeamsDistinctOnce |

`TeamModel.UserTeams` is the query as written, and `TeamModel.UserTeamsMultiplicity` gives
its exact multiplicity. `TeamModel.UserTeamsDistinct` is the intended query. No controller
calls getUserTeams, so nothing else in the model depends on the choice.

## Left out

- Row order: the model returns rows in table order, but SQL leaves the order of an
  unordered SELECT unspecified. The queries' contracts speak of membership and multiplicity.
- Concurrency and transaction isolation: every statement, the three deletes of deleteTeam
  and the multi-row insert of addTeamMembers are each one atomic step.
- Serial exhaustion and the varchar(255) length limit of email, name and title: these
  Postgres errors would answer 500, and the model never raises them.
- Integer input: whitespace around the digits is not trimmed. Forms such as hexadecimal or
  underscores are not accepted.
- JSON numbers are integers; fractional and floating-point values are not modelled.
- Postgres's date parsing and the date's rendering in responses: due_date is kept as the
  text the client sent.
- Postgres's other boolean spellings: "yes", "on" and other words are treated as refused.
  Validation rejects them before that point anyway.
- Arrays: an array bound to a scalar column is treated as refused (500). The real driver
  would send an array literal.
- Objects: a JSON object is kept only as the text JSON.stringify gives it. The checks see it
  as "[object Object]" and a text column stores its JSON text; its keys and members are not
  modelled.
- MembersErrors: when userIds is an object, express-validator also runs userIds.* over the
  object's values. The model lists no item errors for it. Such a body fails isArray either
  way, so only the error list differs, not the status.
- TaskController.UpdateTask: a body key `id` is treated as an unknown column (500). The real
  update would rewrite the primary key.
- AuthController.Register: a null or array email answers 500 before any lookup. The real
  insert would first consume a users id.
- Bcrypt: the hash algorithm, salt and cost are not modelled. `Bcrypt` is a pair of
  functions, and `Sound` says a password matches its own hash.
- isEmail and isISO8601 are abstract predicates.
- Sessions:
  - session persistence, cookies and expiry are not modelled;
  - the outcome of `req.session.save` is the `saved` input;
  - `req.user` is an optional caller input.
- Query strings: the `team_id` query value is a single optional string; repeated keys and
  nested values are not modelled.
- The error objects' `value`, `type` and `location` fields are not modelled. Only path and
  message are kept.
- Logging, the debug-session route (backend/routes/teams.js:8-15) and the health route are
  not part of this model. The same goes for backend/server.js wiring, the session-table
  migration, backend/knexfile.js, backend/middleware/auth.js and the frontend.
- The member routes: getTeamMembers, addTeamMembers and removeTeamMember have no controller.
  Only their model-layer operations and their validation chains are modelled.
