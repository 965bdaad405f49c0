/**
 * backend/routes/teams.js: the validation chains on the team name and on userIds, and the
 * table of routes with the controller export each one names.
 */
module TeamRoutes {
  import opened Rows
  import opened Validators

  /** POST / and PUT /:id share one chain: a non-empty name. */
  function TeamNameErrors(body: Body): (errs: seq<FieldError>)
    ensures errs == [] <==> Passes(NotEmpty, Field(body, "name"))
    ensures forall e :: e in errs ==> e == FieldError("name", "Team name is required")
  {
    Chain(body, "name", false, NotEmpty, "Team name is required")
  }

  predicate IsNonEmptyArray(v: Value) {
    v.Arr? && |v.items| >= 1
  }

  const ItemMessage := "Each user ID must be a number"

  /** The errors the check reports on each item, in item order; `path(i)` names item i. */
  function PerItem(check: string -> bool, path: nat -> string, items: seq<Value>): (per: seq<seq<FieldError>>)
    ensures |per| == |items|
    ensures forall i :: 0 <= i < |items| ==> per[i] == Failures(check, Checked(items[i]), path(i), ItemMessage)
  {
    seq(|items|, i requires 0 <= i < |items| => Failures(check, Checked(items[i]), path(i), ItemMessage))
  }

  /**
   * userIds.*: the chain's check (isNumeric) runs on each item, and on an item that is
   * itself an array, on each of its items.
   */
  function ItemErrors(check: string -> bool, path: nat -> string, items: seq<Value>): seq<FieldError> {
    Flatten(PerItem(check, path, items))
  }

  /** The item errors are empty exactly when every item passes. */
  lemma ItemErrorsEmpty(check: string -> bool, path: nat -> string, items: seq<Value>)
    ensures ItemErrors(check, path, items) == [] <==> forall i :: 0 <= i < |items| ==> Passes(check, items[i])
  {
    var per := PerItem(check, path, items);
    if exists i :: 0 <= i < |items| && !Passes(check, items[i]) {
      var i :| 0 <= i < |items| && !Passes(check, items[i]);
      FlattenHas(per, per[i][0]);
    } else if ItemErrors(check, path, items) != [] {
      var e := ItemErrors(check, path, items)[0];
      FlattenHas(per, e);
    }
  }

  /** Every item error names an item that fails the check. */
  lemma ItemErrorNamesFailure(check: string -> bool, path: nat -> string, items: seq<Value>, e: FieldError)
    requires e in ItemErrors(check, path, items)
    ensures exists i :: 0 <= i < |items| && !Passes(check, items[i]) && e == FieldError(path(i), ItemMessage)
  {
    var per := PerItem(check, path, items);
    FlattenHas(per, e);
    var i :| 0 <= i < |per| && e in per[i];
    assert !Passes(check, items[i]);
  }

  /** Every item that fails the check is named by an error. */
  lemma FailureIsNamed(check: string -> bool, path: nat -> string, items: seq<Value>, i: nat)
    requires i < |items| && !Passes(check, items[i])
    ensures FieldError(path(i), ItemMessage) in ItemErrors(check, path, items)
  {
    var per := PerItem(check, path, items);
    assert per[i][0] in per[i];
    FlattenHas(per, per[i][0]);
  }

  /** The path the library reports for item i of userIds. */
  function ItemPath(i: nat): string {
    "userIds[" + Params.DecimalText(i) + "]"
  }

  const ArrayMessage := "userIds must be a non-empty array"

  /**
   * POST /:id/members: userIds must be a non-empty array, and every item must pass
   * isNumeric, an item that is itself an array item by item. The array error comes first,
   * then one error for each failing value under its item's path.
   */
  function MembersErrors(body: Body): (errs: seq<FieldError>)
    ensures errs == [] <==>
      IsNonEmptyArray(Field(body, "userIds")) && forall i :: 0 <= i < |body["userIds"].items| ==> Passes(IsNumeric, body["userIds"].items[i])
    ensures FieldError("userIds", ArrayMessage) in errs <==> !IsNonEmptyArray(Field(body, "userIds"))
    ensures forall e :: e in errs && e.msg == ItemMessage ==>
      && Field(body, "userIds").Arr?
      && (exists i :: 0 <= i < |Field(body, "userIds").items| && !Passes(IsNumeric, Field(body, "userIds").items[i])
           && e.path == ItemPath(i))
    ensures Field(body, "userIds").Arr? ==>
      forall i :: 0 <= i < |Field(body, "userIds").items| && !Passes(IsNumeric, Field(body, "userIds").items[i]) ==>
        FieldError(ItemPath(i), ItemMessage) in errs
  {
    var v := Field(body, "userIds");
    var items := if v.Arr? then ItemErrors(IsNumeric, ItemPath, v.items) else [];
    var arrayError := if IsNonEmptyArray(v) then [] else [FieldError("userIds", ArrayMessage)];
    if v.Arr? then
      ItemsNamedByPosition(v.items);
      arrayError + items
    else arrayError + items
  }

  /** The item errors of userIds: each names a failing item, and each failing item is named. */
  lemma ItemsNamedByPosition(items: seq<Value>)
    ensures ItemErrors(IsNumeric, ItemPath, items) == [] <==> forall i :: 0 <= i < |items| ==> Passes(IsNumeric, items[i])
    ensures forall e :: e in ItemErrors(IsNumeric, ItemPath, items) ==> e.msg == ItemMessage
    ensures forall e :: e in ItemErrors(IsNumeric, ItemPath, items) ==>
      exists i :: 0 <= i < |items| && !Passes(IsNumeric, items[i]) && e == FieldError(ItemPath(i), ItemMessage)
    ensures forall i :: 0 <= i < |items| && !Passes(IsNumeric, items[i]) ==>
      FieldError(ItemPath(i), ItemMessage) in ItemErrors(IsNumeric, ItemPath, items)
  {
    ItemErrorsEmpty(IsNumeric, ItemPath, items);
    forall e | e in ItemErrors(IsNumeric, ItemPath, items)
      ensures exists i :: 0 <= i < |items| && !Passes(IsNumeric, items[i]) && e == FieldError(ItemPath(i), ItemMessage)
    {
      ItemErrorNamesFailure(IsNumeric, ItemPath, items, e);
    }
    forall i | 0 <= i < |items| && !Passes(IsNumeric, items[i])
      ensures FieldError(ItemPath(i), ItemMessage) in ItemErrors(IsNumeric, ItemPath, items)
    {
      FailureIsNamed(IsNumeric, ItemPath, items, i);
    }
  }

  /** A nested array of numbers passes userIds.*: the inner array is checked item by item. */
  lemma NestedNumericIdsPass()
    ensures MembersErrors(map["userIds" := Arr([Arr([Num(1), Num(2)])])]) == []
  {
    var inner := Arr([Num(1), Num(2)]);
    assert Text(Num(1)) == "1" && Text(Num(2)) == "2";
    assert Passes(IsNumeric, inner);
  }

  datatype Verb = Get | Post | Put | Delete

  /** The controller exports the router names. */
  datatype Handler = GetTeams | CreateTeam | UpdateTeam | DeleteTeam | GetTeamMembers | AddTeamMembers | RemoveTeamMember

  /** A route: its verb, its path, whether it validates the body, and the export it names. */
  datatype Route = Route(verb: Verb, path: string, validated: bool, handler: Handler)

  /** The routes the router declares after the debug route. */
  const TeamRouteTable: seq<Route> := [
    Route(Get, "/", false, GetTeams),
    Route(Post, "/", true, CreateTeam),
    Route(Put, "/:id", true, UpdateTeam),
    Route(Delete, "/:id", false, DeleteTeam),
    Route(Get, "/:id/members", false, GetTeamMembers),
    Route(Post, "/:id/members", true, AddTeamMembers),
    Route(Delete, "/:id/members/:userId", false, RemoveTeamMember)
  ]

  /** The handlers backend/controllers/teamController.js exports. */
  const TeamControllerExports: set<Handler> := {GetTeams, CreateTeam, UpdateTeam, DeleteTeam}

  /**
   * The first four routes name an export of the controller; the three member routes name
   * handlers it does not define, so the router is handed undefined for them.
   */
  lemma MemberRoutesAreUnbound()
    ensures |TeamRouteTable| == 7
    ensures forall i :: 0 <= i < |TeamRouteTable| ==> (TeamRouteTable[i].handler in TeamControllerExports <==> i < 4)
    ensures forall i :: 4 <= i < |TeamRouteTable| ==> TeamRouteTable[i].path[..|"/:id/members"|] == "/:id/members"
  {
  }

  /** Only the three routes that read a body validate it; the DELETE routes validate nothing. */
  lemma DeleteRoutesAreUnvalidated()
    ensures forall r :: r in TeamRouteTable && r.verb == Delete ==> !r.validated
    ensures forall r :: r in TeamRouteTable && (r.verb == Post || r.verb == Put) ==> r.validated
  {
  }
}
