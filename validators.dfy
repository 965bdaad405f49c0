/**
 * The request body as the validation chains of the route files see it, and the checks
 * those chains use. isEmail and isISO8601 stay abstract; the rest are written out.
 */
module Validators {
  import opened Wrappers
  import opened Rows
  import opened Params

  /**
   * A JSON value of the request body; numbers are integers. An object is kept only as the
   * text JSON.stringify gives it, which is what the database driver binds for it; the
   * checks never look inside one.
   */
  datatype Value = Null | Bool(b: bool) | Num(n: int) | Str(s: string) | Arr(items: seq<Value>) | Obj(json: string)

  /** The parsed JSON body: field name to value; a field that is not a key is undefined. */
  type Body = map<string, Value>

  /** One entry of errors.array(): the field's path and the chain's message. */
  datatype FieldError = FieldError(path: string, msg: string)

  /** The library's own string checks, taken as given. */
  datatype Checks = Checks(isEmail: string -> bool, isISO8601: string -> bool)

  /** The value of a field, undefined reading as Null: the checks treat the two alike. */
  function Field(body: Body, name: string): Value {
    if name in body then body[name] else Null
  }

  /**
   * The string a check sees: undefined and null read as "", an array as its items joined
   * with ",", an object as "[object Object]".
   */
  function Text(v: Value): string
    decreases v, 1
  {
    match v
    case Null => ""
    case Bool(b) => if b then "true" else "false"
    case Num(n) => DecimalText(n)
    case Str(s) => s
    case Arr(items) => JoinedText(v, items)
    case Obj(_) => "[object Object]"
  }

  function JoinedText(whole: Value, items: seq<Value>): string
    requires forall x :: x in items ==> x < whole
    decreases whole, 0, |items|
  {
    if items == [] then ""
    else
      assert items[0] in items;
      if |items| == 1 then Text(items[0])
      else
        assert forall x :: x in items[1..] ==> x in items;
        Text(items[0]) + "," + JoinedText(whole, items[1..])
  }

  /** The values a standard check runs on: each item of an array, any other value alone. */
  function Checked(v: Value): seq<Value> {
    if v.Arr? then v.items else [v]
  }

  /** A value whose text `check` refuses. */
  function Fails(check: string -> bool): Value -> bool {
    (x: Value) => !check(Text(x))
  }

  /** A standard check on a field: it must hold for every value it runs on. */
  predicate Passes(check: string -> bool, v: Value) {
    forall i :: 0 <= i < |Checked(v)| ==> check(Text(Checked(v)[i]))
  }

  predicate NotEmpty(s: string) {
    s != ""
  }

  predicate AtLeastSix(s: string) {
    |s| >= 6
  }

  /** isBoolean without its strict option: the four spellings the library accepts. */
  predicate IsBooleanText(s: string) {
    s == "true" || s == "false" || s == "1" || s == "0"
  }

  /** The text after an optional leading sign. */
  function Unsigned(s: string): string {
    if |s| > 0 && (s[0] == '+' || s[0] == '-') then s[1..] else s
  }

  /**
   * isNumeric with the en-US decimal point: an optional sign, then digits with at most one
   * '.', ending in a digit.
   */
  predicate IsNumeric(s: string) {
    var r := Unsigned(s);
    && |r| >= 1
    && IsDigit(r[|r| - 1])
    && (forall i :: 0 <= i < |r| ==> IsDigit(r[i]) || r[i] == '.')
    && (forall i, j :: 0 <= i < j < |r| && r[i] == '.' ==> r[j] != '.')
  }

  /** Every text Postgres reads as an int4 passes isNumeric. */
  lemma Int4TextIsNumeric(s: string)
    requires ParseInt4(s).Some?
    ensures IsNumeric(s)
  {
  }

  /** isNumeric is wider than int4 input: a decimal fraction passes it but is no integer. */
  lemma NumericIsNotInt4()
    ensures IsNumeric("1.5") && ParseInt4("1.5").None?
  {
    assert !AllDigits("1.5") by { assert !IsDigit("1.5"[1]); }
    assert Unsigned("1.5") == "1.5";
  }

  /** The errors one standard check adds under `path`: one for each value of `vs` that fails it. */
  function Failures(check: string -> bool, vs: seq<Value>, path: string, msg: string): (errs: seq<FieldError>)
    ensures errs == [] <==> forall i :: 0 <= i < |vs| ==> check(Text(vs[i]))
    ensures forall e :: e in errs ==> e == FieldError(path, msg)
    ensures |errs| <= |vs|
  {
    if vs == [] then []
    else
      var rest := Failures(check, vs[1..], path, msg);
      assert forall i :: 0 < i < |vs| ==> vs[i] == vs[1..][i - 1];
      (if check(Text(vs[0])) then [] else [FieldError(path, msg)]) + rest
  }

  /** There are as many errors as values that fail the check, the rows WHERE NOT check keeps. */
  lemma {:induction false} FailuresCount(check: string -> bool, vs: seq<Value>, path: string, msg: string)
    ensures |Failures(check, vs, path, msg)| == |Filter(vs, Fails(check))|
  {
    if vs != [] {
      FailuresCount(check, vs[1..], path, msg);
    }
  }

  /**
   * A chain of one check on one field (the routes' chains all have one): no error when the
   * field is optional and absent or when its check passes. Otherwise the chain's message,
   * once for a scalar and once for each failing item of an array.
   */
  function Chain(body: Body, name: string, optional: bool, check: string -> bool, msg: string): (errs: seq<FieldError>)
    ensures errs == [] <==> (optional && name !in body) || Passes(check, Field(body, name))
    ensures forall e :: e in errs ==> e == FieldError(name, msg)
    ensures !Field(body, name).Arr? ==> |errs| <= 1
  {
    if optional && name !in body then [] else Failures(check, Checked(Field(body, name)), name, msg)
  }

  /** A chain that runs reports one error for each value its check refuses. */
  lemma ChainCountsFailures(body: Body, name: string, optional: bool, check: string -> bool, msg: string)
    requires !(optional && name !in body)
    ensures |Chain(body, name, optional, check, msg)| == |Filter(Checked(Field(body, name)), Fails(check))|
  {
    FailuresCount(check, Checked(Field(body, name)), name, msg);
  }
}
