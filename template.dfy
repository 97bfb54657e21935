/**
 * `expandTemplate` from tests/helpers.ts: a recursive walk over a JSON-like
 * value that replaces every object owning a `repeat` key by the string
 * `unit.repeat(times)`, maps arrays element by element, rebuilds other
 * objects key by key, and returns scalars unchanged.
 *
 * `Expand` is the specification; `ExpandTemplate` is the operation as the
 * source runs it (an array `map`, and a `for` loop that assigns into a fresh
 * object), proved equal to `Expand`.
 */
module Template {
  import opened Wrappers
  import opened Json
  import opened JsString

  /** `typeof x === 'string'` for a property read that may yield `undefined`. */
  predicate IsStringValue(x: Option<Value>) { x.Some? && x.value.JString? }

  /** `typeof x === 'number'` for a property read that may yield `undefined`. */
  predicate IsNumberValue(x: Option<Value>) { x.Some? && x.value.JNumber? }

  /** `typeof rep.unit === 'string' ? rep.unit : ''` */
  function RepeatUnit(rep: Value): string
  {
    match Lookup(rep, "unit")
    case Some(JString(s)) => s
    case _ => ""
  }

  /** `typeof rep.times === 'number' ? rep.times : 0` */
  function RepeatTimes(rep: Value): real
  {
    match Lookup(rep, "times")
    case Some(JNumber(n)) => n
    case _ => 0.0
  }

  /**
   * The whole count `String.prototype.repeat` uses: `times` truncated toward
   * zero. `repeat` throws a RangeError when that count is negative, that is
   * when `times <= -1`.
   */
  function RepeatCount(times: real): (count: nat)
    requires times > -1.0
    ensures times >= 0.0 ==> count as real <= times < count as real + 1.0
    ensures times < 1.0 ==> count == 0
  {
    if times >= 0.0 then times.Floor else 0
  }

  /**
   * `expandTemplate(v)` returns instead of throwing: no `repeat` key that is
   * read holds `null` (a TypeError on `rep.unit`) or a `times` of -1 or less
   * (a RangeError in `repeat`). The siblings of a `repeat` key are never read.
   */
  ghost predicate Expandable(v: Value)
    decreases v
  {
    match v
    case JArray(items) => forall i | 0 <= i < |items| :: Expandable(items[i])
    case JObject(fields) =>
      (match Get(fields, "repeat")
       case Some(rep) => rep != JNull && RepeatTimes(rep) > -1.0
       case None => forall i | 0 <= i < |fields| :: Expandable(fields[i].1))
    case _ => true
  }

  /** No object anywhere in `v` owns a `repeat` key. */
  ghost predicate NoRepeat(v: Value)
    decreases v
  {
    match v
    case JArray(items) => forall i | 0 <= i < |items| :: NoRepeat(items[i])
    case JObject(fields) =>
      "repeat" !in Keys(fields) && forall i | 0 <= i < |fields| :: NoRepeat(fields[i].1)
    case _ => true
  }

  /** The value `expandTemplate(v)` returns. */
  function Expand(v: Value): Value
    requires Expandable(v)
    decreases v, 1
  {
    match v
    case JArray(items) => JArray(ExpandItems(items))
    case JObject(fields) =>
      (match Get(fields, "repeat")
       case Some(rep) => JString(Repeat(RepeatUnit(rep), RepeatCount(RepeatTimes(rep))))
       case None => JObject(ExpandFields(v, fields)))
    case _ => v
  }

  /** `items.map(expandTemplate)` */
  function ExpandItems(items: seq<Value>): seq<Value>
    requires forall i | 0 <= i < |items| :: Expandable(items[i])
    decreases items, 0
  {
    if items == [] then []
    else ExpandItems(items[..|items| - 1]) + [Expand(items[|items| - 1])]
  }

  /**
   * The fields of the rebuilt object: every value expanded, keys kept.
   * `fields` is a prefix of the fields of `obj`, which only serves the
   * termination argument.
   */
  function ExpandFields(ghost obj: Value, fields: seq<(string, Value)>): seq<(string, Value)>
    requires obj.JObject? && fields <= obj.fields
    requires forall i | 0 <= i < |fields| :: Expandable(fields[i].1)
    decreases obj, 0, |fields|
  {
    if fields == [] then []
    else
      assert fields[|fields| - 1] in obj.fields;
      ExpandFields(obj, fields[..|fields| - 1]) + [(fields[|fields| - 1].0, Expand(fields[|fields| - 1].1))]
  }

  /** `obj[k] = v` on an object: an existing key keeps its place, a new key goes last. */
  function Put(fields: seq<(string, Value)>, k: string, v: Value): (r: seq<(string, Value)>)
    ensures k in Keys(r)
  {
    if fields == [] then
      var r := [(k, v)];
      assert Keys(r)[0] == k;
      r
    else if fields[0].0 == k then
      var r := [(k, v)] + fields[1..];
      assert Keys(r)[0] == k;
      r
    else
      var r := [fields[0]] + Put(fields[1..], k, v);
      assert Keys(r) == [fields[0].0] + Keys(Put(fields[1..], k, v));
      r
  }

  /** Assigning a key the object does not have appends it. */
  lemma {:induction false} PutNewKey(fields: seq<(string, Value)>, k: string, v: Value)
    requires k !in Keys(fields)
    ensures Put(fields, k, v) == fields + [(k, v)]
  {
    if fields != [] {
      assert fields[0].0 == Keys(fields)[0];
      assert Keys(fields[1..]) == Keys(fields)[1..];
      PutNewKey(fields[1..], k, v);
      assert [fields[0]] + (fields[1..] + [(k, v)]) == fields + [(k, v)];
    }
  }

  /** The array branch: same length, element i is the expansion of element i. */
  lemma {:induction false} ExpandItemsPointwise(items: seq<Value>)
    requires forall i | 0 <= i < |items| :: Expandable(items[i])
    ensures |ExpandItems(items)| == |items|
    ensures forall i | 0 <= i < |items| :: ExpandItems(items)[i] == Expand(items[i])
  {
    if items != [] {
      ExpandItemsPointwise(items[..|items| - 1]);
    }
  }

  /** The object branch: same keys in the same order, value i is the expansion of value i. */
  lemma {:induction false} ExpandFieldsPointwise(obj: Value, fields: seq<(string, Value)>)
    requires obj.JObject? && fields <= obj.fields
    requires forall i | 0 <= i < |fields| :: Expandable(fields[i].1)
    ensures |ExpandFields(obj, fields)| == |fields|
    ensures forall i | 0 <= i < |fields| :: ExpandFields(obj, fields)[i] == (fields[i].0, Expand(fields[i].1))
    ensures Keys(ExpandFields(obj, fields)) == Keys(fields)
  {
    if fields != [] {
      ExpandFieldsPointwise(obj, fields[..|fields| - 1]);
    }
  }

  /** An array expands to an array of the same length whose element i is the expansion of element i. */
  lemma ExpandArray(items: seq<Value>)
    requires Expandable(JArray(items))
    ensures Expand(JArray(items)).JArray?
    ensures |Expand(JArray(items)).items| == |items|
    ensures forall i | 0 <= i < |items| :: Expand(JArray(items)).items[i] == Expand(items[i])
  {
    ExpandItemsPointwise(items);
  }

  /**
   * An object owning `repeat` expands to the string `unit` repeated `times`
   * times, of length |unit| * times; a non-string `unit` counts as '' and a
   * non-number `times` as 0; the object's other keys play no part.
   */
  lemma ExpandRepeatNode(fields: seq<(string, Value)>, rep: Value)
    requires Get(fields, "repeat") == Some(rep)
    requires Expandable(JObject(fields))
    ensures Expand(JObject(fields)) == JString(Repeat(RepeatUnit(rep), RepeatCount(RepeatTimes(rep))))
    ensures |Expand(JObject(fields)).s| == |RepeatUnit(rep)| * RepeatCount(RepeatTimes(rep))
    ensures !IsStringValue(Lookup(rep, "unit")) ==> Expand(JObject(fields)) == JString("")
    ensures !IsNumberValue(Lookup(rep, "times")) ==> Expand(JObject(fields)) == JString("")
  {
    var unit := RepeatUnit(rep);
    var count := RepeatCount(RepeatTimes(rep));
    assert Expand(JObject(fields)) == JString(Repeat(unit, count));
    RepeatLength(unit, count);
    if !IsStringValue(Lookup(rep, "unit")) {
      assert unit == "";
      RepeatEmpty(count);
    }
    if !IsNumberValue(Lookup(rep, "times")) {
      assert count == 0;
    }
  }

  /** Repeating the empty string gives the empty string. */
  lemma {:induction false} RepeatEmpty(n: nat)
    ensures Repeat("", n) == ""
  {
    if n > 0 {
      RepeatEmpty(n - 1);
    }
  }

  /** An object without `repeat` expands to an object with exactly the same keys, in order, values expanded. */
  lemma ExpandPlainObject(fields: seq<(string, Value)>)
    requires Get(fields, "repeat") == None
    requires Expandable(JObject(fields))
    ensures Expand(JObject(fields)).JObject?
    ensures Keys(Expand(JObject(fields)).fields) == Keys(fields)
    ensures |Expand(JObject(fields)).fields| == |fields|
    ensures forall i | 0 <= i < |fields| :: Expand(JObject(fields)).fields[i].1 == Expand(fields[i].1)
  {
    ExpandFieldsPointwise(JObject(fields), fields);
  }

  /** A value without `repeat` nodes is expandable and its expansion is itself. */
  lemma {:induction false} ExpandIdentity(v: Value)
    requires NoRepeat(v)
    ensures Expandable(v) && Expand(v) == v
    decreases v
  {
    match v
    case JArray(items) =>
      forall i | 0 <= i < |items|
        ensures Expandable(items[i]) && Expand(items[i]) == items[i]
      {
        ExpandIdentity(items[i]);
      }
      ExpandItemsPointwise(items);
      assert ExpandItems(items) == items;
    case JObject(fields) =>
      forall i | 0 <= i < |fields|
        ensures Expandable(fields[i].1) && Expand(fields[i].1) == fields[i].1
      {
        ExpandIdentity(fields[i].1);
      }
      ExpandFieldsPointwise(JObject(fields), fields);
      assert ExpandFields(v, fields) == fields;
    case _ =>
  }

  /** An expansion holds no `repeat` node any more. */
  lemma {:induction false} ExpandRemovesRepeat(v: Value)
    requires Expandable(v)
    ensures NoRepeat(Expand(v))
    decreases v
  {
    match v
    case JArray(items) =>
      ExpandItemsPointwise(items);
      forall i | 0 <= i < |items|
        ensures NoRepeat(ExpandItems(items)[i])
      {
        ExpandRemovesRepeat(items[i]);
      }
    case JObject(fields) =>
      if Get(fields, "repeat").None? {
        ExpandFieldsPointwise(JObject(fields), fields);
        forall i | 0 <= i < |fields|
          ensures NoRepeat(ExpandFields(v, fields)[i].1)
        {
          ExpandRemovesRepeat(fields[i].1);
        }
      }
    case _ =>
  }

  /** Expanding twice is expanding once. */
  lemma ExpandIdempotent(v: Value)
    requires Expandable(v)
    ensures Expandable(Expand(v)) && Expand(Expand(v)) == Expand(v)
  {
    ExpandRemovesRepeat(v);
    ExpandIdentity(Expand(v));
  }

  /** Expansion keeps every object's keys distinct. */
  lemma {:induction false} ExpandWellFormed(v: Value)
    requires Expandable(v) && WellFormed(v)
    ensures WellFormed(Expand(v))
    decreases v
  {
    match v
    case JArray(items) =>
      ExpandItemsPointwise(items);
      forall i | 0 <= i < |items|
        ensures WellFormed(ExpandItems(items)[i])
      {
        ExpandWellFormed(items[i]);
      }
    case JObject(fields) =>
      if Get(fields, "repeat").None? {
        ExpandFieldsPointwise(JObject(fields), fields);
        var out := ExpandFields(v, fields);
        forall i | 0 <= i < |fields|
          ensures WellFormed(out[i].1)
        {
          ExpandWellFormed(fields[i].1);
        }
        forall i, j | 0 <= i < j < |out|
          ensures out[i].0 != out[j].0
        {
          assert out[i].0 == fields[i].0 && out[j].0 == fields[j].0;
        }
      }
    case _ =>
  }

  /** The template `{ repeat: { unit, times } }`. */
  function RepeatNode(unit: Value, times: Value): Value
  {
    JObject([("repeat", JObject([("unit", unit), ("times", times)]))])
  }

  /** Expanding `{ repeat: { unit, times } }` reads exactly those two values. */
  lemma ExpandRepeatNodeOf(unit: Value, times: Value)
    requires !times.JNumber? || times.n > -1.0
    ensures Expandable(RepeatNode(unit, times))
    ensures Expand(RepeatNode(unit, times)) ==
      JString(Repeat(if unit.JString? then unit.s else "", RepeatCount(if times.JNumber? then times.n else 0.0)))
  {
    var rep := JObject([("unit", unit), ("times", times)]);
    assert Get([("unit", unit), ("times", times)], "unit") == Some(unit);
    assert Get([("unit", unit), ("times", times)], "times") == Some(times);
    assert Get([("repeat", rep)], "repeat") == Some(rep);
    assert RepeatUnit(rep) == if unit.JString? then unit.s else "";
    assert RepeatTimes(rep) == if times.JNumber? then times.n else 0.0;
    assert Expandable(RepeatNode(unit, times));
    ExpandRepeatNode([("repeat", rep)], rep);
  }

  /** `{ repeat: { unit: 'ab', times: 3 } }` expands to 'ababab'. */
  lemma ExpandRepeatThreeTimes()
    ensures Expandable(RepeatNode(JString("ab"), JNumber(3.0)))
    ensures Expand(RepeatNode(JString("ab"), JNumber(3.0))) == JString("ababab")
  {
    ExpandRepeatNodeOf(JString("ab"), JNumber(3.0));
    assert RepeatCount(3.0) == 3;
    assert Repeat("ab", 1) == "ab" by { assert Repeat("ab", 0) == ""; }
    assert Repeat("ab", 2) == "abab";
    assert Repeat("ab", 3) == "ababab";
  }

  /** A zero count, a non-string unit and a non-numeric count all expand to ''. */
  lemma ExpandRepeatDefaults()
    ensures Expandable(RepeatNode(JString("ab"), JNumber(0.0)))
    ensures Expand(RepeatNode(JString("ab"), JNumber(0.0))) == JString("")
    ensures Expandable(RepeatNode(JNumber(7.0), JNumber(3.0)))
    ensures Expand(RepeatNode(JNumber(7.0), JNumber(3.0))) == JString("")
    ensures Expandable(RepeatNode(JString("ab"), JString("3")))
    ensures Expand(RepeatNode(JString("ab"), JString("3"))) == JString("")
  {
    ExpandRepeatNodeOf(JString("ab"), JNumber(0.0));
    ExpandRepeatNodeOf(JNumber(7.0), JNumber(3.0));
    ExpandRepeatNodeOf(JString("ab"), JString("3"));
    RepeatEmpty(3);
  }

  /** `expandTemplate(v)` as the source runs it. */
  method ExpandTemplate(v: Value) returns (r: Value)
    requires WellFormed(v) && Expandable(v)
    ensures r == Expand(v)
    decreases v, 1
  {
    if v.JArray? {
      var out := ExpandEach(v, v.items);
      r := JArray(out);
    } else if Truthy(v) && Typeof(v) == "object" {
      var fields := v.fields;
      var repeat := Get(fields, "repeat");
      if repeat.Some? {
        var rep := repeat.value;
        var u := Lookup(rep, "unit");
        var unit := if u.Some? && u.value.JString? then u.value.s else "";
        var t := Lookup(rep, "times");
        var times := if t.Some? && t.value.JNumber? then t.value.n else 0.0;
        r := JString(Repeat(unit, RepeatCount(times)));
      } else {
        var out := ExpandEntries(v);
        r := JObject(out);
      }
    } else {
      r := v;
    }
  }

  /** `input.map((x) => expandTemplate(x))` on the items of the array `parent`. */
  method ExpandEach(ghost parent: Value, items: seq<Value>) returns (out: seq<Value>)
    requires parent.JArray? && items == parent.items
    requires WellFormed(parent) && Expandable(parent)
    ensures out == ExpandItems(items)
    decreases parent, 0
  {
    out := [];
    var i := 0;
    while i < |items|
      invariant 0 <= i <= |items|
      invariant out == ExpandItems(items[..i])
    {
      var x := ExpandTemplate(items[i]);
      assert items[..i + 1][..i] == items[..i];
      out := out + [x];
      i := i + 1;
    }
    assert items[..|items|] == items;
  }

  /**
   * One turn of the entries loop: the next key is new to `out`, so
   * assigning its expanded value appends the next expanded field.
   */
  lemma EntriesStep(obj: Value, i: nat)
    requires obj.JObject? && i < |obj.fields|
    requires DistinctKeys(obj.fields)
    requires forall j | 0 <= j < |obj.fields| :: Expandable(obj.fields[j].1)
    ensures var fields := obj.fields;
      Put(ExpandFields(obj, fields[..i]), fields[i].0, Expand(fields[i].1)) == ExpandFields(obj, fields[..i + 1])
  {
    var fields := obj.fields;
    var out := ExpandFields(obj, fields[..i]);
    var k := fields[i].0;
    ExpandFieldsPointwise(obj, fields[..i]);
    assert k !in Keys(out) by {
      forall j | 0 <= j < i ensures Keys(out)[j] != k {
        assert Keys(out)[j] == fields[j].0;
      }
    }
    PutNewKey(out, k, Expand(fields[i].1));
    assert fields[..i + 1][..i] == fields[..i];
  }

  /** The loop `for (const [k, v] of Object.entries(obj)) out[k] = expandTemplate(v)` into a fresh `out`. */
  method ExpandEntries(obj: Value) returns (out: seq<(string, Value)>)
    requires obj.JObject? && Get(obj.fields, "repeat").None?
    requires WellFormed(obj) && Expandable(obj)
    ensures out == ExpandFields(obj, obj.fields)
    decreases obj, 0
  {
    var fields := obj.fields;
    out := [];
    var i := 0;
    while i < |fields|
      invariant 0 <= i <= |fields|
      invariant out == ExpandFields(obj, fields[..i])
    {
      var k := fields[i].0;
      var x := ExpandTemplate(fields[i].1);
      EntriesStep(obj, i);
      out := Put(out, k, x);
      i := i + 1;
    }
    assert fields[..|fields|] == fields;
  }
}
