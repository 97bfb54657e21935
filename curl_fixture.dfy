/**
 * The automatic `recordCurl` fixture of tests/fixtures/curl.fixture.ts. A
 * test calls it with each request it makes, and the fixture keeps only the
 * last command. At teardown it attaches that command to the report, but
 * only when the test did not pass and at least one request was recorded.
 */
module CurlFixture {
  import opened Wrappers
  import opened Json
  import opened Curl

  /** The final status of a test, as the runner reports it. */
  datatype TestStatus = Passed | Failed | TimedOut | Skipped | Interrupted

  /** A report attachment: its label, its body and its content type. */
  datatype Attachment = Attachment(name: string, body: string, contentType: string)

  const ReproName: string := "cURL repro"
  const ReproType: string := "text/plain"

  /** The fixture's state for one test: the `lastCurl` it closes over. */
  class CurlRecorder {
    /** Stands for `JSON.stringify`, which `toCurl` uses for non-string bodies. */
    const stringify: Value -> string
    var lastCurl: string
    /** The inputs recorded so far, in call order. */
    ghost var recorded: seq<CurlInput>

    /** `lastCurl` is empty before the first call and the last call's command after it. */
    ghost predicate Valid()
      reads this
    {
      lastCurl == (if recorded == [] then "" else Command(recorded[|recorded| - 1], stringify))
    }

    /** The fixture starts a test with `lastCurl = ''`. */
    constructor (stringify: Value -> string)
      ensures Valid()
      ensures this.stringify == stringify
      ensures lastCurl == "" && recorded == []
    {
      this.stringify := stringify;
      lastCurl := "";
      recorded := [];
    }

    /** The function handed to the test: `lastCurl = toCurl(input)`, overwriting any earlier command. */
    method Record(input: CurlInput)
      requires Valid()
      modifies this
      ensures Valid()
      ensures recorded == old(recorded) + [input]
      ensures lastCurl == Command(input, stringify)
    {
      lastCurl := ToCurl(input, stringify);
      recorded := recorded + [input];
    }

    /**
     * The teardown: an attachment labelled `cURL repro` holding the last
     * command as plain text exactly when the test did not pass and some
     * request was recorded. A recorded command is never empty, so the
     * emptiness test on `lastCurl` means "nothing was recorded".
     */
    method Teardown(status: TestStatus) returns (attachment: Option<Attachment>)
      requires Valid()
      ensures attachment.Some? <==> status != Passed && recorded != []
      ensures attachment.Some? ==>
        attachment.value == Attachment(ReproName, Command(recorded[|recorded| - 1], stringify), ReproType)
    {
      if recorded != [] {
        CommandStartsWith(recorded[|recorded| - 1], stringify);
      }
      if status != Passed && lastCurl != "" {
        attachment := Some(Attachment(ReproName, lastCurl, ReproType));
      } else {
        attachment := None;
      }
    }
  }

  /** A test that makes no request gets no attachment, whatever its status. */
  method RunWithoutRequests(stringify: Value -> string, status: TestStatus)
    returns (attachment: Option<Attachment>)
    ensures attachment == None
  {
    var recorder := new CurlRecorder(stringify);
    attachment := recorder.Teardown(status);
  }

  /**
   * A test that makes two requests: only the second command survives, and
   * it is attached exactly when the test does not pass.
   */
  method RunWithTwoRequests(stringify: Value -> string, first: CurlInput, second: CurlInput, status: TestStatus)
    returns (attachment: Option<Attachment>)
    ensures attachment.Some? <==> status != Passed
    ensures attachment.Some? ==> attachment.value == Attachment(ReproName, Command(second, stringify), ReproType)
  {
    var recorder := new CurlRecorder(stringify);
    recorder.Record(first);
    recorder.Record(second);
    attachment := recorder.Teardown(status);
  }
}
