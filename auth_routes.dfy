/** backend/routes/auth.js: the validation chains of POST /register and POST /login. */
module AuthRoutes {
  import opened Validators

  /** The register chains, in declaration order. */
  function RegisterErrors(c: Checks, body: Body): (errs: seq<FieldError>)
    ensures errs == [] <==>
      && Passes(c.isEmail, Field(body, "email"))
      && Passes(AtLeastSix, Field(body, "password"))
      && ("is_admin" in body ==> Passes(IsBooleanText, body["is_admin"]))
    ensures forall e :: e in errs ==> e in [
      FieldError("email", "Valid email required"),
      FieldError("password", "Password must be at least 6 characters"),
      FieldError("is_admin", "is_admin must be a boolean")]
  {
    Chain(body, "email", false, c.isEmail, "Valid email required")
    + Chain(body, "password", false, AtLeastSix, "Password must be at least 6 characters")
    + Chain(body, "is_admin", true, IsBooleanText, "is_admin must be a boolean")
  }


  /** The login chains: a valid email, and a password field that is present, of any length. */
  function LoginErrors(c: Checks, body: Body): (errs: seq<FieldError>)
    ensures errs == [] <==> Passes(c.isEmail, Field(body, "email")) && "password" in body
    ensures forall e :: e in errs ==> e in [
      FieldError("email", "Valid email required"),
      FieldError("password", "Password required")]
  {
    Chain(body, "email", false, c.isEmail, "Valid email required")
    + (if "password" in body then [] else [FieldError("password", "Password required")])
  }

  /** A body register accepts is one login accepts: login asks less of the password. */
  lemma RegisterBodyPassesLogin(c: Checks, body: Body)
    requires RegisterErrors(c, body) == []
    requires "password" in body
    ensures LoginErrors(c, body) == []
  {
  }

  /** A short password is refused at register but not at login. */
  lemma ShortPasswordOnlyRefusedAtRegister(c: Checks, email: string)
    requires c.isEmail(email)
    ensures var body := map["email" := Str(email), "password" := Str("abc")];
      RegisterErrors(c, body) == [FieldError("password", "Password must be at least 6 characters")]
      && LoginErrors(c, body) == []
  {
    var body := map["email" := Str(email), "password" := Str("abc")];
    assert Field(body, "password") == Str("abc");
    assert Field(body, "email") == Str(email);
  }

  /** An array email is checked item by item: two items that are not emails give two errors. */
  lemma EachFailingEmailIsReported(c: Checks, x: string, y: string)
    requires !c.isEmail(x) && !c.isEmail(y)
    ensures var body := map["email" := Arr([Str(x), Str(y)]), "password" := Str("abcdef")];
      RegisterErrors(c, body) == [FieldError("email", "Valid email required"), FieldError("email", "Valid email required")]
  {
    var body := map["email" := Arr([Str(x), Str(y)]), "password" := Str("abcdef")];
    assert Field(body, "email") == Arr([Str(x), Str(y)]);
    assert Field(body, "password") == Str("abcdef");
    assert Text(Str(x)) == x && Text(Str(y)) == y;
    var e := FieldError("email", "Valid email required");
    assert [Str(x), Str(y)][1..] == [Str(y)] && [Str(y)][1..] == [];
    assert Failures(c.isEmail, [Str(y)], "email", "Valid email required") == [e];
    assert Failures(c.isEmail, [Str(x), Str(y)], "email", "Valid email required") == [e, e];
    assert Chain(body, "password", false, AtLeastSix, "Password must be at least 6 characters") == [];
    assert Chain(body, "is_admin", true, IsBooleanText, "is_admin must be a boolean") == [];
  }
}
