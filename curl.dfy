/**
 * The cURL reproduction builder of src/lib/curl.ts: the command
 * `curl -i -X <METHOD> [-H "<k>: <v>"]... [--data "<body>"] "<url>"`,
 * with every free-text argument double-quoted by `q`.
 */
module Curl {
  import opened Wrappers
  import opened Json
  import opened JsString

  // ---------------------------------------------------------------------
  // Input
  // ---------------------------------------------------------------------

  datatype Method = GET | POST | PUT | PATCH | DELETE

  function MethodName(m: Method): string
  {
    match m
    case GET => "GET"
    case POST => "POST"
    case PUT => "PUT"
    case PATCH => "PATCH"
    case DELETE => "DELETE"
  }

  /**
   * `CurlInput`. The headers are the record's entries in enumeration order;
   * `None` stands for an absent `headers` and for an absent `data`.
   */
  datatype CurlInput = CurlInput(
    httpMethod: Method,
    url: string,
    headers: Option<seq<(string, string)>>,
    data: Option<Value>)

  /** The destructuring default `headers = {}`. */
  function HeadersOf(input: CurlInput): seq<(string, string)>
  {
    if input.headers.Some? then input.headers.value else []
  }

  // ---------------------------------------------------------------------
  // q
  // ---------------------------------------------------------------------

  /** The two chained replaces of `q`: backslashes doubled first, then quotes escaped. */
  function Escape(s: string): string
  {
    ReplaceAll(ReplaceAll(s, '\\', "\\\\"), '"', "\\\"")
  }

  /** `q(s)`: the escaped text between double quotes. */
  function Q(s: string): string
  {
    "\"" + Escape(s) + "\""
  }

  /** The escape of one character, as a single left-to-right pass would write it. */
  function EscapeChar(c: char): string
  {
    if c == '\\' then "\\\\" else if c == '"' then "\\\"" else [c]
  }

  /** An independent single-pass escaper: each character replaced by its escape. */
  function EscapeOnce(s: string): string
  {
    if s == [] then "" else EscapeChar(s[0]) + EscapeOnce(s[1..])
  }

  /**
   * The chained replaces equal the single pass: because backslashes are
   * doubled before quotes are escaped, the backslash that escapes a quote is
   * never doubled again.
   */
  lemma {:induction false} EscapeIsSinglePass(s: string)
    ensures Escape(s) == EscapeOnce(s)
  {
    if s != [] {
      var h := if s[0] == '\\' then "\\\\" else [s[0]];
      assert ReplaceAll(s, '\\', "\\\\") == h + ReplaceAll(s[1..], '\\', "\\\\");
      ReplaceAllAppend(h, ReplaceAll(s[1..], '\\', "\\\\"), '"', "\\\"");
      EscapeIsSinglePass(s[1..]);
      if s[0] == '\\' {
        assert '"' !in h;
        ReplaceAllAbsent(h, '"', "\\\"");
      } else {
        assert h[1..] == [];
      }
    }
  }

  /**
   * `q(s)` starts and ends with a double quote and is longer than `s` by the
   * two quotes plus one character for every backslash and every quote in `s`.
   */
  lemma QuoteLength(s: string)
    ensures |Q(s)| == |s| + 2 + Count(s, '\\') + Count(s, '"')
    ensures Q(s)[0] == '"' && Q(s)[|Q(s)| - 1] == '"'
  {
    var once := ReplaceAll(s, '\\', "\\\\");
    ReplaceAllLength(s, '\\', "\\\\");
    ReplaceAllCount(s, '\\', "\\\\", '"');
    ReplaceAllLength(once, '"', "\\\"");
  }

  /** In the single-pass escape, every double quote comes right after a backslash. */
  lemma {:induction false} EscapeOnceQuotes(s: string)
    ensures forall i | 0 <= i < |EscapeOnce(s)| && EscapeOnce(s)[i] == '"' :: 0 < i && EscapeOnce(s)[i - 1] == '\\'
  {
    if s != [] {
      var h := EscapeChar(s[0]);
      var e := EscapeOnce(s[1..]);
      EscapeOnceQuotes(s[1..]);
      assert EscapeOnce(s) == h + e;
      forall i | 0 <= i < |h + e| && (h + e)[i] == '"'
        ensures 0 < i && (h + e)[i - 1] == '\\'
      {
        if i >= |h| {
          assert (h + e)[i] == e[i - |h|];
          assert (h + e)[i - 1] == e[i - |h| - 1];
        }
      }
    }
  }

  /** Between its outer quotes, `q(s)` has no double quote that is not preceded by a backslash. */
  lemma QuoteEscapesQuotes(s: string)
    ensures forall i | 0 < i < |Q(s)| - 1 && Q(s)[i] == '"' :: 1 < i && Q(s)[i - 1] == '\\'
  {
    EscapeIsSinglePass(s);
    EscapeOnceQuotes(s);
    var e := EscapeOnce(s);
    assert Q(s) == "\"" + e + "\"";
    forall i | 0 < i < |Q(s)| - 1 && Q(s)[i] == '"'
      ensures 1 < i && Q(s)[i - 1] == '\\'
    {
      assert Q(s)[i] == e[i - 1];
    }
  }

  /** Reverse order escapes quotes first, and the backslash it adds is doubled afterwards. */
  function EscapeQuotesFirst(s: string): string
  {
    ReplaceAll(ReplaceAll(s, '"', "\\\""), '\\', "\\\\")
  }

  // ---------------------------------------------------------------------
  // Reading a double-quoted word back
  // ---------------------------------------------------------------------

  /**
   * Reads the text of a double-quoted word whose opening quote has been
   * consumed, undoing the escapes `\\` and `\"` and nothing else (a
   * backslash before any other character is kept). Yields the text and what
   * follows the closing quote.
   */
  function ReadQuoted(s: string): (r: Option<(string, string)>)
    ensures r.Some? ==> |r.value.1| < |s|
    decreases |s|
  {
    if s == [] then None
    else if s[0] == '"' then Some(([], s[1..]))
    else if s[0] == '\\' && |s| >= 2 && (s[1] == '\\' || s[1] == '"') then
      var r := ReadQuoted(s[2..]);
      if r.None? then None else Some(([s[1]] + r.value.0, r.value.1))
    else
      var r := ReadQuoted(s[1..]);
      if r.None? then None else Some(([s[0]] + r.value.0, r.value.1))
  }

  /** Reading an escaped character yields that character and continues after it. */
  lemma ReadQuotedEscapedChar(c: char, y: string)
    requires ReadQuoted(y).Some?
    ensures ReadQuoted(EscapeChar(c) + y) == Some(([c] + ReadQuoted(y).value.0, ReadQuoted(y).value.1))
  {
    var x := EscapeChar(c) + y;
    if c == '\\' || c == '"' {
      assert x[0] == '\\' && x[1] == c && x[2..] == y;
    } else {
      assert x[0] == c && x[1..] == y;
    }
  }

  /** Escaped text followed by a closing quote reads back as the original text. */
  lemma {:induction false} ReadQuotedEscaped(s: string, rest: string)
    requires |rest| > 0 && rest[0] == '"'
    ensures ReadQuoted(EscapeOnce(s) + rest) == Some((s, rest[1..]))
  {
    if s == [] {
      assert EscapeOnce(s) + rest == rest;
    } else {
      ReadQuotedEscaped(s[1..], rest);
      ReadQuotedEscapedChar(s[0], EscapeOnce(s[1..]) + rest);
      assert EscapeOnce(s) + rest == EscapeChar(s[0]) + (EscapeOnce(s[1..]) + rest);
      assert [s[0]] + s[1..] == s;
    }
  }

  /** Undoing `\\` and `\"` in `q(s)` gives back exactly `s`, whatever `s` contains. */
  lemma QuoteReadsBack(s: string, tail: string)
    ensures Q(s)[0] == '"'
    ensures ReadQuoted((Q(s) + tail)[1..]) == Some((s, tail))
  {
    EscapeIsSinglePass(s);
    assert (Q(s) + tail)[1..] == EscapeOnce(s) + ("\"" + tail);
    ReadQuotedEscaped(s, "\"" + tail);
    assert ("\"" + tail)[1..] == tail;
  }

  /** Why the order of the two replaces matters: escaping quotes first turns `"` into `\\"`, which reads back as a lone backslash. */
  lemma QuoteOrderMatters()
    ensures EscapeQuotesFirst("\"") == "\\\\\""
    ensures ReadQuoted(EscapeQuotesFirst("\"") + "\"") == Some(("\\", "\""))
    ensures Escape("\"") == "\\\""
  {
    assert ReplaceAll("\"", '"', "\\\"") == "\\\"";
    assert ReplaceAll("\"", '\\', "\\\\") == "\"";
    assert ReplaceAll("\\\"", '\\', "\\\\") == "\\\\\"";
    var x := "\\\\\"" + "\"";
    assert EscapeQuotesFirst("\"") + "\"" == x;
    assert x[2..] == "\"\"";
    assert ReadQuoted(x[2..]) == Some(([], "\""));
    assert ReadQuoted(x) == Some((['\\'] + [], "\""));
    assert ['\\'] + [] == "\\";
  }

  // ---------------------------------------------------------------------
  // The argument list
  // ---------------------------------------------------------------------

  /** One word of the command: a literal word or a `q`-quoted text. */
  datatype Arg = Bare(word: string) | Quoted(text: string)

  function Render(a: Arg): string
  {
    match a
    case Bare(w) => w
    case Quoted(t) => Q(t)
  }

  /** The string curl receives for the word. */
  function ArgValue(a: Arg): string
  {
    match a
    case Bare(w) => w
    case Quoted(t) => t
  }

  function RenderAll(args: seq<Arg>): (parts: seq<string>)
    ensures |parts| == |args|
    ensures forall i | 0 <= i < |args| :: parts[i] == Render(args[i])
  {
    seq(|args|, i requires 0 <= i < |args| => Render(args[i]))
  }

  function ValuesOf(args: seq<Arg>): (vs: seq<string>)
    ensures |vs| == |args|
    ensures forall i | 0 <= i < |args| :: vs[i] == ArgValue(args[i])
  {
    seq(|args|, i requires 0 <= i < |args| => ArgValue(args[i]))
  }

  /** The first four words: `curl -i -X <METHOD>`. */
  function Prefix(m: Method): seq<Arg>
  {
    [Bare("curl"), Bare("-i"), Bare("-X"), Bare(MethodName(m))]
  }

  /** `-H "<k>: <v>"` for each header, in order. */
  function HeaderArgs(hs: seq<(string, string)>): seq<Arg>
  {
    if hs == [] then []
    else HeaderArgs(hs[..|hs| - 1]) + [Bare("-H"), Quoted(hs[|hs| - 1].0 + ": " + hs[|hs| - 1].1)]
  }

  /** A string body is sent as it is; any other value as its JSON text. */
  function BodyText(d: Value, stringify: Value -> string): string
  {
    if d.JString? then d.s else stringify(d)
  }

  function DataArgs(data: Option<Value>, stringify: Value -> string): seq<Arg>
  {
    match data
    case None => []
    case Some(d) => [Bare("--data"), Quoted(BodyText(d, stringify))]
  }

  /** The words of the command of `toCurl(input)`; `stringify` stands for `JSON.stringify`. */
  function CurlArgs(input: CurlInput, stringify: Value -> string): seq<Arg>
  {
    Prefix(input.httpMethod) + HeaderArgs(HeadersOf(input)) + DataArgs(input.data, stringify) + [Quoted(input.url)]
  }

  /** The command string: the rendered words joined by single spaces. */
  function Command(input: CurlInput, stringify: Value -> string): string
  {
    Join(RenderAll(CurlArgs(input, stringify)), ' ')
  }

  lemma RenderAllAppend(a: seq<Arg>, b: seq<Arg>)
    ensures RenderAll(a + b) == RenderAll(a) + RenderAll(b)
  {
  }

  // ---------------------------------------------------------------------
  // toCurl
  // ---------------------------------------------------------------------

  /** One turn of the header loop renders the next `-H` pair after the words so far. */
  lemma HeaderStep(m: Method, headers: seq<(string, string)>, i: nat)
    requires i < |headers|
    ensures RenderAll(Prefix(m) + HeaderArgs(headers[..i + 1]))
         == RenderAll(Prefix(m) + HeaderArgs(headers[..i])) + ["-H", Q(headers[i].0 + ": " + headers[i].1)]
  {
    var pair := [Bare("-H"), Quoted(headers[i].0 + ": " + headers[i].1)];
    assert headers[..i + 1][..i] == headers[..i];
    assert Prefix(m) + HeaderArgs(headers[..i + 1]) == Prefix(m) + HeaderArgs(headers[..i]) + pair;
    RenderAllAppend(Prefix(m) + HeaderArgs(headers[..i]), pair);
  }

  /** After the header loop come the data words, when there are any, and the URL. */
  lemma TailStep(input: CurlInput, stringify: Value -> string)
    ensures var front := Prefix(input.httpMethod) + HeaderArgs(HeadersOf(input));
      RenderAll(CurlArgs(input, stringify))
        == RenderAll(front)
         + (if input.data.Some? then ["--data", Q(BodyText(input.data.value, stringify))] else [])
         + [Q(input.url)]
  {
    var front := Prefix(input.httpMethod) + HeaderArgs(HeadersOf(input));
    var data := DataArgs(input.data, stringify);
    RenderAllAppend(front, data);
    RenderAllAppend(front + data, [Quoted(input.url)]);
  }

  /** `toCurl(input)`: pushes the words one group at a time, then joins them with spaces. */
  method ToCurl(input: CurlInput, stringify: Value -> string) returns (cmd: string)
    ensures cmd == Command(input, stringify)
  {
    var headers := if input.headers.Some? then input.headers.value else [];
    var parts: seq<string> := ["curl", "-i", "-X", MethodName(input.httpMethod)];
    assert parts == RenderAll(Prefix(input.httpMethod) + HeaderArgs(headers[..0]));
    var i := 0;
    while i < |headers|
      invariant 0 <= i <= |headers|
      invariant parts == RenderAll(Prefix(input.httpMethod) + HeaderArgs(headers[..i]))
    {
      var (k, v) := headers[i];
      HeaderStep(input.httpMethod, headers, i);
      parts := parts + ["-H", Q(k + ": " + v)];
      i := i + 1;
    }
    assert headers[..i] == HeadersOf(input);
    assert parts == RenderAll(Prefix(input.httpMethod) + HeaderArgs(HeadersOf(input)));
    if input.data.Some? {
      var data := input.data.value;
      var body := if data.JString? then data.s else stringify(data);
      assert body == BodyText(data, stringify);
      parts := parts + ["--data", Q(body)];
    } else {
      assert parts == parts + [];
    }
    parts := parts + [Q(input.url)];
    TailStep(input, stringify);
    cmd := Join(parts, ' ');
  }

  // ---------------------------------------------------------------------
  // Shape of the command
  // ---------------------------------------------------------------------

  /** Each header contributes `-H` followed by its quoted `k: v` line, in order. */
  lemma {:induction false} HeaderArgsSpec(hs: seq<(string, string)>)
    ensures |HeaderArgs(hs)| == 2 * |hs|
    ensures forall j | 0 <= j < |hs| ::
      HeaderArgs(hs)[2 * j] == Bare("-H") && HeaderArgs(hs)[2 * j + 1] == Quoted(hs[j].0 + ": " + hs[j].1)
  {
    if hs != [] {
      var init := hs[..|hs| - 1];
      HeaderArgsSpec(init);
      forall j | 0 <= j < |hs|
        ensures HeaderArgs(hs)[2 * j] == Bare("-H") && HeaderArgs(hs)[2 * j + 1] == Quoted(hs[j].0 + ": " + hs[j].1)
      {
        if j < |init| {
          assert hs[j] == init[j];
        }
      }
    }
  }

  /**
   * The word list: `curl -i -X <METHOD>`, then `-H` and the quoted `k: v`
   * for each header in order, then `--data` and the quoted body exactly
   * when there is data, and the quoted URL last.
   */
  lemma CurlArgsShape(input: CurlInput, stringify: Value -> string)
    ensures var args := CurlArgs(input, stringify); var hs := HeadersOf(input);
      && |args| == 5 + 2 * |hs| + (if input.data.Some? then 2 else 0)
      && args[..4] == Prefix(input.httpMethod)
      && (forall j | 0 <= j < |hs| ::
           args[4 + 2 * j] == Bare("-H") && args[5 + 2 * j] == Quoted(hs[j].0 + ": " + hs[j].1))
      && (input.data.Some? ==>
           args[4 + 2 * |hs|] == Bare("--data") && args[5 + 2 * |hs|] == Quoted(BodyText(input.data.value, stringify)))
      && args[|args| - 1] == Quoted(input.url)
  {
    HeaderArgsSpec(HeadersOf(input));
  }

  /** A `--data` word appears exactly when the input carries data. */
  lemma DataFlagIff(input: CurlInput, stringify: Value -> string)
    ensures Bare("--data") in CurlArgs(input, stringify) <==> input.data.Some?
  {
    var args := CurlArgs(input, stringify);
    var hs := HeadersOf(input);
    CurlArgsShape(input, stringify);
    if input.data.Some? {
      assert args[4 + 2 * |hs|] == Bare("--data");
    } else {
      forall i | 0 <= i < |args|
        ensures args[i] != Bare("--data")
      {
        if 4 <= i < 4 + 2 * |hs| {
          var j := (i - 4) / 2;
          assert i == 4 + 2 * j || i == 5 + 2 * j;
        }
      }
    }
  }

  /** Every bare word of the command is a plain non-empty word: no space, quote or backslash. */
  predicate PlainWord(w: string)
  {
    |w| > 0 && ' ' !in w && '"' !in w && '\\' !in w
  }

  predicate SafeArg(a: Arg)
  {
    a.Bare? ==> PlainWord(a.word)
  }

  predicate AllSafe(args: seq<Arg>)
  {
    forall i | 0 <= i < |args| :: SafeArg(args[i])
  }

  lemma AllSafeAppend(a: seq<Arg>, b: seq<Arg>)
    requires AllSafe(a) && AllSafe(b)
    ensures AllSafe(a + b)
  {
    forall i | 0 <= i < |a + b|
      ensures SafeArg((a + b)[i])
    {
      if i >= |a| {
        assert (a + b)[i] == b[i - |a|];
      }
    }
  }

  lemma MethodNamePlain(m: Method)
    ensures PlainWord(MethodName(m))
  {
    match m
    case GET =>
    case POST =>
    case PUT =>
    case PATCH =>
    case DELETE =>
  }

  lemma PrefixSafe(m: Method)
    ensures AllSafe(Prefix(m))
  {
    MethodNamePlain(m);
    assert PlainWord("curl") && PlainWord("-i") && PlainWord("-X");
  }

  lemma {:induction false} HeaderArgsSafe(hs: seq<(string, string)>)
    ensures AllSafe(HeaderArgs(hs))
  {
    if hs != [] {
      HeaderArgsSafe(hs[..|hs| - 1]);
      var line := hs[|hs| - 1].0 + ": " + hs[|hs| - 1].1;
      assert PlainWord("-H");
      AllSafeAppend(HeaderArgs(hs[..|hs| - 1]), [Bare("-H"), Quoted(line)]);
    }
  }

  lemma DataArgsSafe(data: Option<Value>, stringify: Value -> string)
    ensures AllSafe(DataArgs(data, stringify))
  {
    assert PlainWord("--data");
  }

  /** Every unquoted word of the command is a plain word. */
  lemma CurlArgsSafe(input: CurlInput, stringify: Value -> string)
    ensures AllSafe(CurlArgs(input, stringify))
  {
    var front := Prefix(input.httpMethod);
    var hs := HeaderArgs(HeadersOf(input));
    var data := DataArgs(input.data, stringify);
    PrefixSafe(input.httpMethod);
    HeaderArgsSafe(HeadersOf(input));
    DataArgsSafe(input.data, stringify);
    AllSafeAppend(front, hs);
    AllSafeAppend(front + hs, data);
    AllSafeAppend(front + hs + data, [Quoted(input.url)]);
  }

  lemma JoinFour(a: string, b: string, c: string, d: string, sep: char)
    ensures Join([a, b, c, d], sep) == a + [sep] + (b + [sep] + (c + [sep] + d))
  {
    assert [a, b, c, d][1..] == [b, c, d];
    assert [b, c, d][1..] == [c, d];
    assert [c, d][1..] == [d];
    assert Join([d], sep) == d;
    assert Join([c, d], sep) == c + [sep] + d;
    assert Join([b, c, d], sep) == b + [sep] + (c + [sep] + d);
  }

  /** The joined prefix is `curl -i -X <METHOD>`. */
  lemma PrefixText(m: Method)
    ensures Join(RenderAll(Prefix(m)), ' ') == "curl -i -X " + MethodName(m)
  {
    var name := MethodName(m);
    assert RenderAll(Prefix(m)) == ["curl", "-i", "-X", name];
    JoinFour("curl", "-i", "-X", name, ' ');
    assert "curl" + [' '] + ("-i" + [' '] + ("-X" + [' '] + name)) == "curl -i -X " + name;
  }

  /** The command is `curl -i -X <METHOD> ` followed by the joined remaining words. */
  lemma CommandSplit(input: CurlInput, stringify: Value -> string)
    ensures var rest := HeaderArgs(HeadersOf(input)) + DataArgs(input.data, stringify) + [Quoted(input.url)];
      Command(input, stringify) == "curl -i -X " + MethodName(input.httpMethod) + " " + Join(RenderAll(rest), ' ')
  {
    var rest := HeaderArgs(HeadersOf(input)) + DataArgs(input.data, stringify) + [Quoted(input.url)];
    assert CurlArgs(input, stringify) == Prefix(input.httpMethod) + rest;
    RenderAllAppend(Prefix(input.httpMethod), rest);
    JoinAppend(RenderAll(Prefix(input.httpMethod)), RenderAll(rest), ' ');
    PrefixText(input.httpMethod);
  }

  /** The command starts with `curl -i -X <METHOD> `, so it is never empty. */
  lemma CommandStartsWith(input: CurlInput, stringify: Value -> string)
    ensures var cmd := Command(input, stringify); var p := "curl -i -X " + MethodName(input.httpMethod) + " ";
      |p| < |cmd| && cmd[..|p|] == p
  {
    CommandSplit(input, stringify);
    var rest := HeaderArgs(HeadersOf(input)) + DataArgs(input.data, stringify) + [Quoted(input.url)];
    JoinEndsWithLast(RenderAll(rest), ' ');
    QuoteLength(input.url);
  }

  /** The command ends with the quoted URL. */
  lemma CommandEndsWithUrl(input: CurlInput, stringify: Value -> string)
    ensures var cmd := Command(input, stringify);
      |Q(input.url)| <= |cmd| && cmd[|cmd| - |Q(input.url)|..] == Q(input.url)
  {
    var parts := RenderAll(CurlArgs(input, stringify));
    JoinEndsWithLast(parts, ' ');
  }

  // ---------------------------------------------------------------------
  // Reading the command back into words
  // ---------------------------------------------------------------------

  /** Reads an unquoted word up to the next space. */
  function ReadBare(s: string): (r: (string, string))
    ensures r.0 + r.1 == s
  {
    if s == [] || s[0] == ' ' then ([], s)
    else
      var (w, rest) := ReadBare(s[1..]);
      ([s[0]] + w, rest)
  }

  /** Reads one word: a double-quoted one, or a bare one. */
  function ReadWord(s: string): (r: Option<(string, string)>)
    ensures r.Some? ==> |r.value.1| <= |s|
  {
    if s != [] && s[0] == '"' then ReadQuoted(s[1..]) else Some(ReadBare(s))
  }

  /**
   * Splits a command line into words at single spaces, reading quoted words
   * with `ReadQuoted`. It undoes `\\` and `\"` only: it performs no
   * parameter expansion or command substitution.
   */
  function Words(s: string): Option<seq<string>>
    decreases |s|
  {
    var r := ReadWord(s);
    if r.None? then None
    else if r.value.1 == [] then Some([r.value.0])
    else if r.value.1[0] != ' ' then None
    else
      var ws := Words(r.value.1[1..]);
      if ws.None? then None else Some([r.value.0] + ws.value)
  }

  lemma {:induction false} ReadBareOf(w: string, tail: string)
    requires ' ' !in w
    requires tail == [] || tail[0] == ' '
    ensures ReadBare(w + tail) == (w, tail)
  {
    if w == [] {
      assert w + tail == tail;
    } else {
      assert w[0] in w;
      assert (w + tail)[1..] == w[1..] + tail;
      ReadBareOf(w[1..], tail);
      assert [w[0]] + w[1..] == w;
    }
  }

  lemma ReadWordOf(a: Arg, tail: string)
    requires SafeArg(a)
    requires tail == [] || tail[0] == ' '
    ensures ReadWord(Render(a) + tail) == Some((ArgValue(a), tail))
  {
    match a
    case Bare(w) =>
      assert w[0] in w;
      ReadBareOf(w, tail);
    case Quoted(t) =>
      QuoteReadsBack(t, tail);
  }

  /** Rendering safe words and joining them with spaces reads back as their values. */
  lemma {:induction false} WordsOfJoin(args: seq<Arg>)
    requires |args| > 0
    requires AllSafe(args)
    ensures Words(Join(RenderAll(args), ' ')) == Some(ValuesOf(args))
  {
    if |args| == 1 {
      assert Join(RenderAll(args), ' ') == Render(args[0]) + [];
      ReadWordOf(args[0], []);
      assert ValuesOf(args) == [ArgValue(args[0])];
    } else {
      var rest := Join(RenderAll(args[1..]), ' ');
      assert RenderAll(args)[1..] == RenderAll(args[1..]);
      assert Join(RenderAll(args), ' ') == Render(args[0]) + ([' '] + rest);
      ReadWordOf(args[0], [' '] + rest);
      assert ([' '] + rest)[1..] == rest;
      WordsOfJoin(args[1..]);
      assert ValuesOf(args) == [ArgValue(args[0])] + ValuesOf(args[1..]);
    }
  }

  /**
   * A reader that splits the command at spaces and undoes `\\` and `\"`
   * recovers exactly the intended words: the method, each header line, the
   * body and the URL, unaltered whatever quotes or backslashes they contain.
   */
  lemma CommandReadsBack(input: CurlInput, stringify: Value -> string)
    ensures Words(Command(input, stringify)) == Some(ValuesOf(CurlArgs(input, stringify)))
  {
    CurlArgsSafe(input, stringify);
    WordsOfJoin(CurlArgs(input, stringify));
  }
}
