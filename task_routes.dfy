/** backend/routes/tasks.js: the validation chains of POST / and PUT /:id; DELETE /:id has none. */
module TaskRoutes {
  import opened Validators

  /** POST /: title and team_id are required; due_date and assigned_to are checked when present. */
  function TaskPostErrors(c: Checks, body: Body): (errs: seq<FieldError>)
    ensures errs == [] <==>
      && Passes(NotEmpty, Field(body, "title"))
      && Passes(IsNumeric, Field(body, "team_id"))
      && ("due_date" in body ==> Passes(c.isISO8601, body["due_date"]))
      && ("assigned_to" in body ==> Passes(IsNumeric, body["assigned_to"]))
    ensures forall e :: e in errs ==> e.path in {"title", "team_id", "due_date", "assigned_to"}
  {
    Chain(body, "title", false, NotEmpty, "Task title is required")
    + Chain(body, "team_id", false, IsNumeric, "Valid team ID is required")
    + Chain(body, "due_date", true, c.isISO8601, "Valid due date required")
    + Chain(body, "assigned_to", true, IsNumeric, "Valid user ID required")
  }

  /** PUT /:id: every field is optional, and each one present obeys its rule. */
  function TaskPutErrors(c: Checks, body: Body): (errs: seq<FieldError>)
    ensures errs == [] <==>
      && ("title" in body ==> Passes(NotEmpty, body["title"]))
      && ("team_id" in body ==> Passes(IsNumeric, body["team_id"]))
      && ("due_date" in body ==> Passes(c.isISO8601, body["due_date"]))
      && ("assigned_to" in body ==> Passes(IsNumeric, body["assigned_to"]))
    ensures forall e :: e in errs ==> e.path in {"title", "team_id", "due_date", "assigned_to"}
  {
    Chain(body, "title", true, NotEmpty, "Task title cannot be empty")
    + Chain(body, "team_id", true, IsNumeric, "Valid team ID is required")
    + Chain(body, "due_date", true, c.isISO8601, "Valid due date required")
    + Chain(body, "assigned_to", true, IsNumeric, "Valid user ID required")
  }

  /** Every body POST accepts, PUT accepts too. */
  lemma PostBodyPassesPut(c: Checks, body: Body)
    requires TaskPostErrors(c, body) == []
    ensures TaskPutErrors(c, body) == []
  {
  }

  /** PUT accepts an empty body, which POST refuses for its title and its team. */
  lemma EmptyBodyOnlyPassesPut(c: Checks)
    ensures TaskPutErrors(c, map[]) == []
    ensures TaskPostErrors(c, map[]) == [
      FieldError("title", "Task title is required"), FieldError("team_id", "Valid team ID is required")]
  {
    assert Field(map[], "title") == Null && Field(map[], "team_id") == Null;
    assert !IsNumeric("");
  }
}
