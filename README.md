# Test-support utilities of a mock-API end-to-end suite, in Dafny

The suite drives a remote mock JSON API and uses a handful of small support
utilities. This project models those utilities and proves what they promise.

- **Test-data helpers** (`tests/helpers.ts`):
  - `expandTemplate` walks a JSON value and replaces every object that owns a
    `repeat` key by `unit` repeated `times` times;
  - `strLen` counts code points;
  - `pickExpectedLengths` defaults missing numbers to 0;
  - `isPlainEmptyObject` recognises `{}`;
  - `safeParseJson` is a parse that never throws.
- **The cURL reproduction builder** (`src/lib/curl.ts`). `toCurl` builds
  `curl -i -X <METHOD>`, then one `-H` per header, then an optional `--data`,
  then the URL. `q` double-quotes each free-text argument, escaping
  backslashes and then quotes.
- **The schema assertion** (`src/lib/schemaAssert.ts`). `assertSchema`
  throws exactly when the validator rejects. `formatErrors` builds the
  bulleted failure report.
- **The `recordCurl` fixture** (`tests/fixtures/curl.fixture.ts`). It keeps
  the last recorded command and attaches it to the report when a test does
  not pass.

Modules:

- `Wrappers` holds `Option` and `Outcome`.
- `Json` holds the JSON value datatype and JavaScript's truthiness, `typeof`
  and property lookup on it.
  - Objects are sequences of (key, value) pairs in insertion order.
  - Numbers are `real`.
- `JsString` models the string built-ins the code relies on:
  - `trim` with ECMAScript's whitespace set;
  - UTF-16 encoding and the number of elements code-point iteration yields;
  - `repeat`;
  - `replace` with a one-character global pattern;
  - `join` with a one-character separator, and its inverse `split`. The
    source never calls `split`; the proofs about the failure report use it.
- `Helpers`, `Template`, `Curl`, `SchemaAssert` and `CurlFixture` follow the
  source files.

The foreign functions are parameters:

- `JSON.parse` is `string -> Option<Value>`, with `None` meaning it throws.
- `JSON.stringify` is `Value -> string`.
- The compiled Ajv validator is `(schema, data) -> Verdict`.

The loops of the source are methods proved against specification functions:

- the recursive walk of `expandTemplate` (`Template.ExpandTemplate`, with its
  array `map` in `Template.ExpandEach` and its entries loop in
  `Template.ExpandEntries`) against `Template.Expand`;
- the `parts.push` sequence of `toCurl` (`Curl.ToCurl` against
  `Curl.Command`).

The fixture's captured `lastCurl` variable is a field of the class
`CurlFixture.CurlRecorder`. Two whole-test scenarios use the class: one that
makes no request and one that makes two in a row.

`Curl.Words` gives the command a partner: it splits a command line into
words at single spaces and undoes `\\` and `\"` inside double quotes, and
nothing else. `Curl.CommandReadsBack` proves that this reading recovers
exactly the intended arguments unaltered: the method, each header line, the
body and the URL.

## Model

| member | source | states |
|---|---|---|
| Json.Keys | tests/helpers.ts:18 | `Object.keys` lists the keys of an object's pairs, one per pair, in order |
| Json.Get | tests/helpers.ts:34-35 | a property read finds a value exactly when the key is present; the value is the one paired with that key, and is unique if keys are distinct |
| Json.Lookup | tests/helpers.ts:35-37 | a property read yields a value only on an object that has the key |
| JsString.TrimStart | tests/helpers.ts:6 | the result is a suffix of the text; everything dropped is whitespace; the result does not start with whitespace |
| JsString.TrimEnd | tests/helpers.ts:6 | the result is a prefix of the text; everything dropped is whitespace; the result does not end with whitespace |
| JsString.TrimEmptyIffAllWhitespace | tests/helpers.ts:6 | `text.trim() === ''` exactly when every character of the text is whitespace |
| JsString.EncodeChar | tests/helpers.ts:25 | a character is one UTF-16 code unit if it is in the Basic Multilingual Plane, otherwise a high surrogate followed by a low surrogate that decode back to it |
| JsString.Utf16Length | tests/helpers.ts:25 | the UTF-16 length of a string is its character count plus one for each supplementary character |
| JsString.CodePointCountOfUtf16 | tests/helpers.ts:25 | iterating the UTF-16 form of a string yields as many elements as the string has characters |
| JsString.CodePointCountBound | tests/helpers.ts:25 | the code-point count never exceeds the number of code units |
| JsString.CodePointCountExact | tests/helpers.ts:25 | the code-point count equals the number of code units exactly when there is no surrogate pair |
| JsString.RepeatLength | tests/helpers.ts:38 | `unit.repeat(n)` is `|unit| * n` long |
| Template.RepeatEmpty | tests/helpers.ts:36-38 | `''.repeat(n)` is `''` for every count |
| JsString.CountAppend | src/lib/curl.ts:24 | occurrence counts add up over a concatenation |
| JsString.ReplaceAllAppend | src/lib/curl.ts:24 | a global one-character replace distributes over concatenation |
| JsString.ReplaceAllAbsent | src/lib/curl.ts:24 | replacing a character that does not occur changes nothing |
| JsString.ReplaceAllLength | src/lib/curl.ts:24 | each replaced occurrence grows the string by the replacement length minus one |
| JsString.ReplaceAllCount | src/lib/curl.ts:24 | replacing `c` by a text free of a different character `d` leaves the number of `d`s unchanged |
| JsString.CountAbsent | src/lib/curl.ts:24 | a character that does not occur has count 0 |
| JsString.Split | src/lib/schemaAssert.ts:24 | `split` yields one more piece than there are separators |
| JsString.SplitAfterWord | src/lib/schemaAssert.ts:12 | a separator-free word followed by a separator splits off as the first piece |
| JsString.SplitWord | src/lib/schemaAssert.ts:17 | a separator-free text splits into itself alone |
| JsString.SplitJoin | src/lib/schemaAssert.ts:24 | splitting undoes joining when no part holds the separator |
| JsString.JoinEndsWithLast | src/lib/curl.ts:19 | a join ends with its last part |
| JsString.JoinAppend | src/lib/curl.ts:19 | joining a concatenation puts exactly one separator between the two joins |
| Template.RepeatCount | tests/helpers.ts:38 | `repeat` truncates its count: for a non-negative count the whole part, and 0 for any count below 1 |
| Template.Put | tests/helpers.ts:41 | after `out[k] = v` the object has the key `k` |
| Template.PutNewKey | tests/helpers.ts:41 | assigning a key the object does not have appends that pair at the end |
| Template.ExpandItemsPointwise | tests/helpers.ts:30 | the `map` over an array keeps its length, and element i is the expansion of element i |
| Template.ExpandFieldsPointwise | tests/helpers.ts:41 | the entries loop keeps every key in place and replaces each value by its expansion |
| Template.ExpandArray | tests/helpers.ts:29-31 | an array expands to an array of the same length, in order, each element expanded |
| Template.ExpandRepeatNode | tests/helpers.ts:34-38 | an object that owns `repeat` becomes `unit` repeated by the truncated `times`, of length `|unit|` times that count, with the other keys discarded; a non-string `unit` or a non-number `times` gives `''` |
| Template.ExpandPlainObject | tests/helpers.ts:40-42 | an object without `repeat` expands to an object with the same keys in the same order, each value expanded |
| Template.ExpandIdentity | tests/helpers.ts:28-45 | on a value with no `repeat` node anywhere, expansion is the identity |
| Template.ExpandRemovesRepeat | tests/helpers.ts:28-45 | an expansion contains no `repeat` node |
| Template.ExpandIdempotent | tests/helpers.ts:28-45 | expanding an expansion changes nothing |
| Template.ExpandWellFormed | tests/helpers.ts:40-42 | expansion keeps every object's keys distinct |
| Template.ExpandRepeatNodeOf | tests/helpers.ts:34-38 | `{repeat: {unit, times}}` expands using exactly these two values |
| Template.ExpandRepeatThreeTimes | tests/helpers.ts:38 | `{repeat: {unit: 'ab', times: 3}}` expands to `'ababab'` |
| Template.ExpandRepeatDefaults | tests/helpers.ts:36-38 | a zero count, a non-string unit and a string count all expand to `''` |
| Template.ExpandTemplate | tests/helpers.ts:28-45 | the recursive walk computes exactly the expansion |
| Template.ExpandEach | tests/helpers.ts:29-31 | the `map` over the array's items computes exactly the expanded items |
| Template.ExpandEntries | tests/helpers.ts:40-42 | the `for` loop filling a fresh `out` computes exactly the expanded fields, keys in order |
| Template.EntriesStep | tests/helpers.ts:41 | each key of the loop is new to `out`, so assigning it appends the next expanded field |
| Helpers.SafeParseJson | tests/helpers.ts:4-11 | blank or whitespace-only text gives `{}`; otherwise the parser's value on success and `null` when the parser throws; it never throws |
| Helpers.SafeParseJsonNull | tests/helpers.ts:7-9 | a `null` result means either that parsing failed or that the text was `null` itself |
| Helpers.IsPlainEmptyObject | tests/helpers.ts:13-20 | true exactly for an object with no keys; false for `null` and for every array |
| Helpers.EmptyBodyDetection | tests/helpers.ts:4-20 | a parsed body is a plain empty object exactly when the text is blank or parses to `{}` |
| Helpers.StrLenSpec | tests/helpers.ts:23-26 | 0 on a non-string; on a string its number of characters, at most its UTF-16 length, and equal to it exactly when it has no supplementary character |
| Helpers.StrLenExamples | tests/helpers.ts:23-26 | `'ab'` has length 2; a thumbs-up emoji has length 1 but UTF-16 length 2; a number gives 0 |
| Helpers.PickExpectedLengthsSpec | tests/helpers.ts:50-57 | each field is `expect`'s number when it has one and 0 otherwise, field by field; a missing `expect` gives both 0 |
| Helpers.PickExpectedLengthsExamples | tests/helpers.ts:50-57 | `{}` gives `{0, 0}` and `{expect: {titleLength: 5}}` gives `{5, 0}` |
| Curl.EscapeIsSinglePass | src/lib/curl.ts:24 | the two chained replaces equal a single pass that escapes each backslash and each quote once |
| Curl.QuoteLength | src/lib/curl.ts:22-25 | `q(s)` starts and ends with `"` and is as long as `s` plus 2 plus the number of backslashes and quotes in `s` |
| Curl.EscapeOnceQuotes | src/lib/curl.ts:24 | in the escaped text every quote comes right after a backslash |
| Curl.QuoteEscapesQuotes | src/lib/curl.ts:22-25 | between the outer quotes of `q(s)`, every `"` is preceded by a backslash |
| Curl.ReadQuoted | src/lib/curl.ts:23 | reading a double-quoted word consumes at least its closing quote |
| Curl.ReadQuotedEscapedChar | src/lib/curl.ts:24 | an escaped character reads back as itself, and reading continues right after it |
| Curl.ReadQuotedEscaped | src/lib/curl.ts:24 | undoing `\\` and `\"` in escaped text followed by a closing quote recovers the original text |
| Curl.QuoteReadsBack | src/lib/curl.ts:22-25 | undoing `\\` and `\"` in `q(s)` gives back exactly `s`, whatever `s` contains |
| Curl.QuoteOrderMatters | src/lib/curl.ts:24 | escaping quotes before backslashes would turn `"` into a word that reads back as a lone backslash; the order used escapes it correctly |
| Curl.RenderAll | src/lib/curl.ts:19 | one rendered string per word, in order |
| Curl.ValuesOf | src/lib/curl.ts:19 | one argument value per word, in order |
| Curl.RenderAllAppend | src/lib/curl.ts:10-18 | rendering distributes over appending words |
| Curl.HeaderStep | src/lib/curl.ts:11-13 | one turn of the header loop adds `-H` and the quoted `k: v` line after the words so far |
| Curl.TailStep | src/lib/curl.ts:14-18 | after the headers come `--data` and the quoted body when there is data, and then the quoted URL |
| Curl.ToCurl | src/lib/curl.ts:9-20 | the header loop and the pushes produce exactly the specified command |
| Curl.HeaderArgsSpec | src/lib/curl.ts:11-13 | each header contributes exactly the pair `-H`, `"<k>: <v>"`, in the headers' order |
| Curl.CurlArgsShape | src/lib/curl.ts:9-19 | the words are `curl -i -X <METHOD>`, then each header pair right after the method, then `--data` and the body (a string verbatim, otherwise its JSON text) when there is data, and the URL last |
| Curl.DataFlagIff | src/lib/curl.ts:14-17 | `--data` appears exactly when the input carries data |
| Curl.AllSafeAppend | src/lib/curl.ts:10-18 | appending two lists of safe words gives a list of safe words |
| Curl.MethodNamePlain | src/lib/curl.ts:2 | each method name is a plain word |
| Curl.PrefixSafe | src/lib/curl.ts:10 | `curl`, `-i`, `-X` and the method are plain words |
| Curl.HeaderArgsSafe | src/lib/curl.ts:11-13 | the only unquoted header word is `-H` |
| Curl.DataArgsSafe | src/lib/curl.ts:14-17 | the only unquoted data word is `--data` |
| Curl.CurlArgsSafe | src/lib/curl.ts:10-18 | every unquoted word is non-empty and free of spaces, quotes and backslashes |
| Curl.JoinFour | src/lib/curl.ts:19 | four parts join with one separator between each pair |
| Curl.PrefixText | src/lib/curl.ts:10 | the first four words join to `curl -i -X <METHOD>` |
| Curl.CommandSplit | src/lib/curl.ts:19 | the command is `curl -i -X <METHOD> ` followed by the remaining words joined by single spaces |
| Curl.CommandStartsWith | src/lib/curl.ts:10-19 | the command starts with `curl -i -X <METHOD> ` and is therefore never empty |
| Curl.CommandEndsWithUrl | src/lib/curl.ts:18-19 | the command ends with `q(url)` |
| Curl.ReadBare | src/lib/curl.ts:19 | an unquoted word and what follows it make up the whole text |
| Curl.ReadWord | src/lib/curl.ts:19 | reading a word never grows the rest of the line |
| Curl.ReadBareOf | src/lib/curl.ts:19 | a space-free word before a space or the end reads back as itself |
| Curl.ReadWordOf | src/lib/curl.ts:19 | each rendered word, whether bare or quoted, reads back as its value |
| Curl.WordsOfJoin | src/lib/curl.ts:19 | safe words joined by single spaces read back as their values, in order |
| Curl.CommandReadsBack | src/lib/curl.ts:9-25 | splitting the command at spaces and undoing `\\` and `\"` recovers exactly the intended words, in order |
| SchemaAssert.Location | src/lib/schemaAssert.ts:20 | the path is `instancePath` if non-empty, else `schemaPath` if non-empty, else `<root>`, and is never empty |
| SchemaAssert.ErrorLines | src/lib/schemaAssert.ts:18-23 | one line per error record, in input order |
| SchemaAssert.ErrorLineShape | src/lib/schemaAssert.ts:20-22 | each line starts with `• <path> — ` and ends with `)`; it holds no line break when none of its parts does |
| SchemaAssert.FormatErrorsLines | src/lib/schemaAssert.ts:18-24 | when no field spans lines, splitting the report at line breaks gives exactly one line per error, in order |
| SchemaAssert.FormatErrorsDegenerate | src/lib/schemaAssert.ts:16-24 | a missing list gives `No errors provided by Ajv`; an empty list gives the empty string, which is different |
| SchemaAssert.AssertSchema | src/lib/schemaAssert.ts:7-14 | returns normally exactly when the validator accepts the data; otherwise the thrown message is exactly `Schema validation failed:`, a line break, and `formatErrors(errors)`, for every error list including an empty or missing one |
| SchemaAssert.AssertSchemaReport | src/lib/schemaAssert.ts:10-12 | with an error list, a rejection's message splits into the header line followed by one line per error, in order |
| SchemaAssert.AssertSchemaReportNoList | src/lib/schemaAssert.ts:10-17 | without an error list, a rejection's message is the header line and the fixed text |
| SchemaAssert.SplitAfterHeader | src/lib/schemaAssert.ts:12 | the header stays a line of its own in front of the report |
| SchemaAssert.NoErrorsSingleLine | src/lib/schemaAssert.ts:17 | the fixed text is a single line |
| CurlFixture.CurlRecorder.constructor | tests/fixtures/curl.fixture.ts:10 | a test starts with `lastCurl` empty and nothing recorded |
| CurlFixture.CurlRecorder.Record | tests/fixtures/curl.fixture.ts:11-13 | recording sets `lastCurl` to the new input's command, overwriting the earlier one, and changes nothing else |
| CurlFixture.CurlRecorder.Teardown | tests/fixtures/curl.fixture.ts:15-17 | an attachment is made exactly when the test did not pass and something was recorded; it is `cURL repro`, `text/plain`, holding the last input's command |
| CurlFixture.RunWithoutRequests | tests/fixtures/curl.fixture.ts:9-17 | a test that records nothing gets no attachment, whatever its status |
| CurlFixture.RunWithTwoRequests | tests/fixtures/curl.fixture.ts:9-17 | after two requests only the second command survives; it is attached exactly when the test does not pass |

## Left out

- Template.Expand: requires `Expandable`. This excludes two throwing paths of the source: `repeat: null` or `undefined` raises a TypeError when `rep.unit` is read (tests/helpers.ts:36), and a `times` of -1 or below raises a RangeError in `repeat` (tests/helpers.ts:38). The model states no behaviour for them.
- Template.ExpandTemplate: requires `Expandable` for the same reason. It also requires `WellFormed`, meaning keys are distinct, which every JavaScript object satisfies.
- Helpers.PickExpectedLengths: requires its argument not to be `null`. Reading `input.expect` on `null` throws a TypeError (tests/helpers.ts:53).
- Helpers.SafeParseJsonNull: `JSON.parse("null")` gives the same `null` as a parse failure, and the model does not distinguish them.
- JavaScript numbers are mathematical reals. NaN, infinities, `-0`, rounding, and `repeat` by `Infinity` are not modelled. The model truncates `times`, with no upper bound on a string's length.
- Dafny strings hold only Unicode scalar values. A JavaScript string holding a lone surrogate therefore cannot be an input. `CodePointCount` itself counts any sequence of code units, lone surrogates included.
- Property reads look only at objects. A string's `length` or indexed characters, and inherited properties, are not modelled. `hasOwnProperty` and `obj['repeat']` on a plain object read the same pair.
- Key order is the order of the pairs. JavaScript enumerates integer-like keys first, and that reordering is not modelled. Neither is the special `__proto__` key.
- The exact whitespace set of `trim` follows ECMAScript: the listed characters plus the line terminators. Dafny's `char` has no Unicode category table, so the Space_Separator class is written out as its characters.
- `JSON.parse`, `JSON.stringify` and the Ajv validator are parameters. Their behaviour, schema semantics, `ajv-formats`, the `allErrors`/`strict` options, compile-time errors of bad schemas, and Ajv's caching are not modelled.
- The method of a `CurlInput` is the closed set of five names that its type allows. Header names and values are taken in the order `Object.entries` yields them.
- Curl.Words: does not model parameter expansion or command substitution. Inside double quotes a POSIX shell expands `$` and `` ` ``, and also treats `\$`, `` \` `` and backslash-newline as escapes, and `q` escapes none of these. So in sh or bash the round-trip of `Curl.CommandReadsBack` holds only for a URL, headers and body free of `$` and `` ` ``. The source's comment on `q` (src/lib/curl.ts:23) claims more than this.
- Curl.Words: reads only what `toCurl` emits: single spaces between words, and double quotes with `\\` and `\"` escapes. It does not model other shells' quoting rules, such as `cmd` or PowerShell.
- A test body making an arbitrary number of requests is not modelled as one method. `CurlRecorder.Record` keeps the class invariant for any sequence of calls, and `CurlRecorder.Teardown` speaks of the last recorded input, so those two contracts cover it.
- The Playwright machinery is not modelled: `base.extend`, `use`, `auto: true`, the asynchronous `testInfo.attach`, and per-worker isolation. The fixture's record and teardown logic is modelled as a class.
- The `*.spec.ts` scenario files are not modelled. They are network-bound assertions over live HTTP responses, including parallel requests.
- `eslint.config.mjs` and `playwright.config.ts` are configuration and are not part of this model.
