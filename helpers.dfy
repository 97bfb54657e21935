/**
 * The length and shape helpers of tests/helpers.ts: a JSON parse that never
 * throws, the empty-object test, the code-point length of a string, and
 * the defaulting of expected lengths.
 */
module Helpers {
  import opened Wrappers
  import opened Json
  import opened JsString

  // ---------------------------------------------------------------------
  // safeParseJson
  // ---------------------------------------------------------------------

  /**
   * `safeParseJson(text)`. `parse` stands for `JSON.parse`: `None` when it
   * throws, `Some(v)` when it returns `v`. Empty or whitespace-only text
   * gives `{}`, a parse failure gives `null`, and nothing is ever thrown.
   */
  function SafeParseJson(text: string, parse: string -> Option<Value>): (r: Value)
    ensures AllWhitespace(text) ==> r == JObject([])
    ensures !AllWhitespace(text) && parse(text).Some? ==> r == parse(text).value
    ensures !AllWhitespace(text) && parse(text).None? ==> r == JNull
  {
    TrimEmptyIffAllWhitespace(text);
    if text == "" || Trim(text) == "" then JObject([])
    else
      match parse(text)
      case Some(v) => v
      case None => JNull
  }

  /**
   * The `null` sentinel is ambiguous: it means either that parsing failed or
   * that the text parsed to `null` itself.
   */
  lemma SafeParseJsonNull(text: string, parse: string -> Option<Value>)
    ensures SafeParseJson(text, parse) == JNull <==>
      !AllWhitespace(text) && (parse(text) == None || parse(text) == Some(JNull))
  {
  }

  // ---------------------------------------------------------------------
  // isPlainEmptyObject
  // ---------------------------------------------------------------------

  /** `!!value && typeof value === 'object' && !Array.isArray(value) && Object.keys(value).length === 0` */
  function IsPlainEmptyObject(value: Value): (r: bool)
    ensures r <==> value == JObject([])
    ensures value == JNull || value.JArray? ==> !r
  {
    Truthy(value) && Typeof(value) == "object" && !value.JArray? && |Keys(value.fields)| == 0
  }

  /**
   * How the helpers combine on a response body: `safeParseJson` yields a plain
   * empty object exactly for blank text, or for text that parses to `{}`.
   */
  lemma EmptyBodyDetection(text: string, parse: string -> Option<Value>)
    ensures IsPlainEmptyObject(SafeParseJson(text, parse)) <==>
      AllWhitespace(text) || parse(text) == Some(JObject([]))
  {
  }

  // ---------------------------------------------------------------------
  // strLen
  // ---------------------------------------------------------------------

  /** `strLen(val)`: `[...val].length` on a string, 0 on anything else. */
  function StrLen(val: Value): nat
  {
    if val.JString? then CodePointCount(Utf16(val.s)) else 0
  }

  /**
   * On a string, `strLen` is its number of characters (a surrogate pair
   * counts once); it never exceeds the UTF-16 length `val.length`, and the
   * two agree exactly when the string has no character outside the Basic
   * Multilingual Plane. On a non-string it is 0.
   */
  lemma StrLenSpec(val: Value)
    ensures !val.JString? ==> StrLen(val) == 0
    ensures val.JString? ==> StrLen(val) == |val.s|
    ensures val.JString? ==> StrLen(val) <= |Utf16(val.s)|
    ensures val.JString? ==> (StrLen(val) == |Utf16(val.s)| <==> SupplementaryCount(val.s) == 0)
  {
    if val.JString? {
      CodePointCountOfUtf16(val.s);
      Utf16Length(val.s);
    }
  }

  /** `strLen('ab') == 2`, `strLen('\u{1F44D}') == 1` although its UTF-16 length is 2, `strLen(42) == 0`. */
  lemma StrLenExamples()
    ensures StrLen(JString("ab")) == 2
    ensures StrLen(JString("\U{1F44D}")) == 1 && |Utf16("\U{1F44D}")| == 2
    ensures StrLen(JNumber(42.0)) == 0
  {
    StrLenSpec(JString("ab"));
    StrLenSpec(JString("\U{1F44D}"));
    Utf16Length("\U{1F44D}");
    assert SupplementaryCount("\U{1F44D}") == 1 by {
      assert "\U{1F44D}"[1..] == "";
    }
  }

  // ---------------------------------------------------------------------
  // pickExpectedLengths
  // ---------------------------------------------------------------------

  datatype ExpectedLengths = ExpectedLengths(titleLength: real, bodyLength: real)

  /** `e && typeof e[key] === 'number' ? e[key] : 0` */
  function NumberOrZero(e: Option<Value>, key: string): real
  {
    match e
    case Some(obj) =>
      if Truthy(obj) then
        match Lookup(obj, key)
        case Some(JNumber(n)) => n
        case _ => 0.0
      else 0.0
    case None => 0.0
  }

  /**
   * `pickExpectedLengths(input)`. Reading `input.expect` throws a TypeError
   * only when `input` is `null`; on any other value it yields the property
   * or `undefined`.
   */
  function PickExpectedLengths(input: Value): ExpectedLengths
    requires input != JNull
  {
    var e := Lookup(input, "expect");
    ExpectedLengths(NumberOrZero(e, "titleLength"), NumberOrZero(e, "bodyLength"))
  }

  /** The numeric value of `expect[key]`, when there is one. */
  ghost predicate HasNumber(input: Value, key: string, n: real)
  {
    Lookup(input, "expect").Some? && Lookup(Lookup(input, "expect").value, key) == Some(JNumber(n))
  }

  /**
   * Each field is `expect[field]` when that is a number and 0 otherwise,
   * decided field by field; in particular a missing `expect` gives zero for both.
   */
  lemma PickExpectedLengthsSpec(input: Value)
    requires input != JNull
    ensures forall n :: HasNumber(input, "titleLength", n) ==> PickExpectedLengths(input).titleLength == n
    ensures forall n :: HasNumber(input, "bodyLength", n) ==> PickExpectedLengths(input).bodyLength == n
    ensures (forall n :: !HasNumber(input, "titleLength", n)) ==> PickExpectedLengths(input).titleLength == 0.0
    ensures (forall n :: !HasNumber(input, "bodyLength", n)) ==> PickExpectedLengths(input).bodyLength == 0.0
    ensures Lookup(input, "expect").None? ==> PickExpectedLengths(input) == ExpectedLengths(0.0, 0.0)
  {
    var e := Lookup(input, "expect");
    if e.Some? {
      match Lookup(e.value, "titleLength") {
        case Some(JNumber(n)) => assert HasNumber(input, "titleLength", n);
        case _ =>
      }
      match Lookup(e.value, "bodyLength") {
        case Some(JNumber(n)) => assert HasNumber(input, "bodyLength", n);
        case _ =>
      }
    }
  }

  /** `pickExpectedLengths({})` is `{0, 0}`; `pickExpectedLengths({expect: {titleLength: 5}})` is `{5, 0}`. */
  lemma PickExpectedLengthsExamples()
    ensures PickExpectedLengths(JObject([])) == ExpectedLengths(0.0, 0.0)
    ensures PickExpectedLengths(JObject([("expect", JObject([("titleLength", JNumber(5.0))]))]))
         == ExpectedLengths(5.0, 0.0)
  {
    var e := JObject([("titleLength", JNumber(5.0))]);
    assert Get([("expect", e)], "expect") == Some(e);
    assert Get(e.fields, "titleLength") == Some(JNumber(5.0));
    assert Get(e.fields, "bodyLength") == None;
  }
}
