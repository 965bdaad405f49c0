/**
 * What the controllers send back, and how a value of the request reaches a column: knex
 * passes it to Postgres as a parameter, and Postgres reads the parameter as the column's
 * type or raises an error, which the controllers answer with 500 "Server error".
 */
module Http {
  import opened Wrappers
  import opened Schema
  import opened Params
  import opened Validators
  import UserModel
  import TaskModel
  import TeamModel

  /** The JSON body of a response. */
  datatype Payload =
    | Message(text: string)
    | Invalid(errors: seq<FieldError>)
    | TaskList(tasks: seq<TaskModel.TaskRow>)
    | TaskRecord(task: Task)
    | TeamList(teams: seq<TeamModel.TeamRow>)
    | TeamRecord(team: Team)
    | Account(user: UserModel.UserView)

  datatype Response = Response(status: int, payload: Payload)

  /** A handler's effect: the database after the request and the response sent. */
  datatype Outcome = Outcome(db: Db, response: Response)

  /** The catch-all answer to any error thrown inside a handler's try block. */
  const ServerError := Response(500, Message("Server error"))

  /** The answer to a request whose validation chains reported errors. */
  function BadRequest(errs: seq<FieldError>): (r: Response)
    ensures r.status == 400 && r.payload.Invalid? && r.payload.errors == errs
  {
    Response(400, Invalid(errs))
  }

  /**
   * The text the driver sends for a scalar value: an object's JSON text, the value's own
   * text for a boolean, number or string.
   */
  function BoundText(v: Value): string {
    if v.Obj? then v.json else Text(v)
  }

  /**
   * A value bound to a text or varchar column: None when Postgres refuses it, Some(None)
   * for NULL. Numbers and booleans arrive as their text and an object as its JSON text; an
   * array does not fit a scalar column.
   */
  function TextColumn(v: Value): (r: Option<Option<string>>)
    ensures r == None <==> v.Arr?
    ensures v.Null? <==> r == Some(None)
    ensures r.Some? && r.value.Some? ==> r.value.value == BoundText(v)
    ensures v.Obj? ==> r == Some(Some(v.json)) && Text(v) == "[object Object]"
  {
    match v
    case Null => Some(None)
    case Arr(_) => None
    case _ => Some(Some(BoundText(v)))
  }

  /**
   * A value bound to an integer column: a number or a string Postgres reads as int4, or NULL.
   * Booleans, arrays, objects, out-of-range numbers and other text raise an error.
   */
  function IntColumn(v: Value): (r: Option<Option<int>>)
    ensures v.Null? <==> r == Some(None)
    ensures r.Some? ==> v.Null? || v.Str? || v.Num?
    ensures r.Some? && r.value.Some? ==> Int4Min <= r.value.value <= Int4Max
    ensures v.Str? ==> (r.Some? <==> ParseInt4(v.s).Some?)
    ensures v.Num? ==> (r.Some? <==> Int4Min <= v.n <= Int4Max)
    ensures (v.Str? || v.Num?) && r.Some? ==> r.value.Some? && ParseInt4(Text(v)) == r.value
  {
    match v
    case Null => Some(None)
    case Num(n) =>
      if Int4Min <= n <= Int4Max then
        ParseDecimalText(n);
        Some(Some(n))
      else None
    case Str(s) =>
      var n := ParseInt4(s);
      if n.Some? then Some(n) else None
    case _ => None
  }

  /**
   * Every id Postgres hands out comes back intact, whether it travels as a route parameter
   * (`:id`, always text) or as a JSON number or string in a body.
   */
  lemma IdsRoundTrip(n: int)
    requires Int4Min <= n <= Int4Max
    ensures ParseInt4(DecimalText(n)) == Some(n)
    ensures IntColumn(Num(n)) == Some(Some(n)) && IntColumn(Str(DecimalText(n))) == Some(Some(n))
  {
    ParseDecimalText(n);
  }
}
