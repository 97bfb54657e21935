/**
 * The schema assertion of src/lib/schemaAssert.ts: run a compiled JSON
 * Schema validator and, when it rejects the data, fail with a message that
 * lists one bullet line per validation error.
 */
module SchemaAssert {
  import opened Wrappers
  import opened Json
  import opened JsString

  /** The fields of a validator error object that the message uses. */
  datatype ErrorRecord = ErrorRecord(
    instancePath: string,
    schemaPath: string,
    message: Option<string>,
    params: Value)

  /** `e.instancePath || e.schemaPath || '<root>'`: the first non-empty path, or `<root>`. */
  function Location(e: ErrorRecord): (r: string)
    ensures r != ""
    ensures e.instancePath != "" ==> r == e.instancePath
    ensures e.instancePath == "" && e.schemaPath != "" ==> r == e.schemaPath
    ensures e.instancePath == "" && e.schemaPath == "" ==> r == "<root>"
  {
    if e.instancePath != "" then e.instancePath
    else if e.schemaPath != "" then e.schemaPath
    else "<root>"
  }

  /** `${e.message}`: an absent message is written as `undefined`. */
  function MessageText(e: ErrorRecord): string
  {
    match e.message
    case Some(m) => m
    case None => "undefined"
  }

  /** The bullet that opens each line, U+2022 and a space. */
  const Bullet: string := "\U{2022} "

  /** The separator between the location and the message, U+2014 between spaces. */
  const Dash: string := " \U{2014} "

  /** One line of the report; `stringify` stands for `JSON.stringify`. */
  function ErrorLine(e: ErrorRecord, stringify: Value -> string): string
  {
    Bullet + Location(e) + Dash + MessageText(e) + " (" + stringify(e.params) + ")"
  }

  function ErrorLines(es: seq<ErrorRecord>, stringify: Value -> string): (lines: seq<string>)
    ensures |lines| == |es|
    ensures forall i | 0 <= i < |es| :: lines[i] == ErrorLine(es[i], stringify)
  {
    seq(|es|, i requires 0 <= i < |es| => ErrorLine(es[i], stringify))
  }

  const NoErrors: string := "No errors provided by Ajv"

  /** `formatErrors(errors)`: `None` stands for `null` or `undefined`. */
  function FormatErrors(errors: Option<seq<ErrorRecord>>, stringify: Value -> string): string
  {
    match errors
    case None => NoErrors
    case Some(es) => Join(ErrorLines(es, stringify), '\n')
  }

  /** No part of the error that ends up in its line contains a line break. */
  predicate SingleLine(e: ErrorRecord, stringify: Value -> string)
  {
    '\n' !in e.instancePath && '\n' !in e.schemaPath && '\n' !in MessageText(e) && '\n' !in stringify(e.params)
  }

  /** Each line begins with the bullet and the error's location, and holds no line break. */
  lemma ErrorLineShape(e: ErrorRecord, stringify: Value -> string)
    ensures var line := ErrorLine(e, stringify); var head := Bullet + Location(e) + Dash;
      |head| < |line| && line[..|head|] == head && line[|line| - 1] == ')'
    ensures SingleLine(e, stringify) ==> '\n' !in ErrorLine(e, stringify)
  {
    var line := ErrorLine(e, stringify);
    var head := Bullet + Location(e) + Dash;
    assert line == head + (MessageText(e) + " (" + stringify(e.params) + ")");
  }

  /**
   * When no error spans several lines, the report has one line per error, in
   * order: splitting it at line breaks gives back exactly the error lines.
   */
  lemma FormatErrorsLines(es: seq<ErrorRecord>, stringify: Value -> string)
    requires |es| > 0
    requires forall i | 0 <= i < |es| :: SingleLine(es[i], stringify)
    ensures Split(FormatErrors(Some(es), stringify), '\n') == ErrorLines(es, stringify)
  {
    var lines := ErrorLines(es, stringify);
    forall i | 0 <= i < |lines|
      ensures '\n' !in lines[i]
    {
      ErrorLineShape(es[i], stringify);
    }
    SplitJoin(lines, '\n');
  }

  /** A missing error list gets a fixed text; an empty one gives an empty report. */
  lemma FormatErrorsDegenerate(stringify: Value -> string)
    ensures FormatErrors(None, stringify) == NoErrors
    ensures FormatErrors(Some([]), stringify) == ""
    ensures FormatErrors(Some([]), stringify) != FormatErrors(None, stringify)
  {
    assert ErrorLines([], stringify) == [];
  }

  // ---------------------------------------------------------------------
  // assertSchema
  // ---------------------------------------------------------------------

  /** What the compiled validator reports: `validate(data)` and `validate.errors`. */
  datatype Verdict = Verdict(valid: bool, errors: Option<seq<ErrorRecord>>)

  const Header: string := "Schema validation failed:"

  /**
   * `assertSchema(data, schema)`. `validate` stands for compiling `schema`
   * and applying the result to `data`. `Pass` is a normal return and
   * `Fail(m)` a thrown `Error` whose message is `m`.
   */
  function AssertSchema(data: Value, schema: Value, validate: (Value, Value) -> Verdict,
                        stringify: Value -> string): (r: Outcome<string>)
    ensures r.Pass? <==> validate(schema, data).valid
    ensures r.Fail? ==> |Header| + 1 <= |r.error| && r.error[..|Header| + 1] == Header + "\n"
    ensures r.Fail? ==> r.error == Header + "\n" + FormatErrors(validate(schema, data).errors, stringify)
  {
    var verdict := validate(schema, data);
    if !verdict.valid then
      var message := Header + "\n" + FormatErrors(verdict.errors, stringify);
      assert message[..|Header| + 1] == Header + "\n";
      Fail(message)
    else Pass
  }

  /**
   * A rejection with an error list: the message, split at line breaks, is
   * the header line followed by one line per error, in order.
   */
  lemma AssertSchemaReport(data: Value, schema: Value, validate: (Value, Value) -> Verdict,
                           stringify: Value -> string)
    requires !validate(schema, data).valid
    requires validate(schema, data).errors.Some?
    requires var es := validate(schema, data).errors.value;
      |es| > 0 && forall i | 0 <= i < |es| :: SingleLine(es[i], stringify)
    ensures AssertSchema(data, schema, validate, stringify).Fail?
    ensures Split(AssertSchema(data, schema, validate, stringify).error, '\n')
         == [Header] + ErrorLines(validate(schema, data).errors.value, stringify)
  {
    var es := validate(schema, data).errors.value;
    var report := FormatErrors(Some(es), stringify);
    assert AssertSchema(data, schema, validate, stringify).error == Header + "\n" + report;
    SplitAfterHeader(report);
    FormatErrorsLines(es, stringify);
  }

  /** A rejection without an error list: the header line and the fixed text. */
  lemma AssertSchemaReportNoList(data: Value, schema: Value, validate: (Value, Value) -> Verdict,
                                 stringify: Value -> string)
    requires !validate(schema, data).valid
    requires validate(schema, data).errors.None?
    ensures AssertSchema(data, schema, validate, stringify).Fail?
    ensures Split(AssertSchema(data, schema, validate, stringify).error, '\n') == [Header, NoErrors]
  {
    assert AssertSchema(data, schema, validate, stringify).error == Header + "\n" + NoErrors;
    SplitAfterHeader(NoErrors);
    NoErrorsSingleLine();
  }

  lemma SplitAfterHeader(report: string)
    ensures Split(Header + "\n" + report, '\n') == [Header] + Split(report, '\n')
  {
    assert '\n' !in Header;
    SplitAfterWord(Header, '\n', report);
  }

  lemma NoErrorsSingleLine()
    ensures Split(NoErrors, '\n') == [NoErrors]
  {
    assert '\n' !in NoErrors;
    SplitWord(NoErrors, '\n');
  }
}
