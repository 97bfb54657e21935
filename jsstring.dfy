/**
 * The JavaScript string built-ins the test-support core relies on:
 * `trim`, UTF-16 encoding and code-point iteration (`[...s]`), `repeat`,
 * a global single-character `replace`, and `join` / its inverse `split`.
 *
 * A Dafny `string` is a sequence of Unicode scalar values; a JavaScript
 * string is the UTF-16 encoding of such a sequence, given by `Utf16`.
 */
module JsString {

  // ---------------------------------------------------------------------
  // Whitespace and trim
  // ---------------------------------------------------------------------

  /**
   * The characters `String.prototype.trim` removes: ECMAScript WhiteSpace
   * (TAB, VT, FF, ZWNBSP and the space separators of category Zs) and
   * LineTerminator (LF, CR, LS, PS).
   */
  predicate IsWhitespace(c: char)
  {
    var n := c as int;
    || n == 0x09 || n == 0x0B || n == 0x0C || n == 0xFEFF
    || n == 0x20 || n == 0xA0 || n == 0x1680 || 0x2000 <= n <= 0x200A
    || n == 0x202F || n == 0x205F || n == 0x3000
    || n == 0x0A || n == 0x0D || n == 0x2028 || n == 0x2029
  }

  ghost predicate AllWhitespace(s: string)
  {
    forall i | 0 <= i < |s| :: IsWhitespace(s[i])
  }

  /** Drops leading whitespace: the result is a suffix of `s` that starts with non-whitespace. */
  function TrimStart(s: string): (r: string)
    ensures |r| <= |s| && r == s[|s| - |r|..]
    ensures AllWhitespace(s[..|s| - |r|])
    ensures r == [] || !IsWhitespace(r[0])
  {
    if s != [] && IsWhitespace(s[0]) then
      var r := TrimStart(s[1..]);
      assert s[..|s| - |r|] == [s[0]] + s[1..][..|s| - 1 - |r|];
      r
    else s
  }

  /** Drops trailing whitespace: the result is a prefix of `s` that ends with non-whitespace. */
  function TrimEnd(s: string): (r: string)
    ensures |r| <= |s| && r == s[..|r|]
    ensures AllWhitespace(s[|r|..])
    ensures r == [] || !IsWhitespace(r[|r| - 1])
    ensures s != [] && !IsWhitespace(s[0]) ==> r != []
  {
    if s != [] && IsWhitespace(s[|s| - 1]) then
      var r := TrimEnd(s[..|s| - 1]);
      assert s[..|s| - 1][..|r|] == s[..|r|];
      assert s[|r|..] == s[..|s| - 1][|r|..] + [s[|s| - 1]];
      r
    else s
  }

  /** `String.prototype.trim`. */
  function Trim(s: string): string
  {
    TrimEnd(TrimStart(s))
  }

  /** `s.trim() === ''` holds exactly when every character of `s` is whitespace. */
  lemma TrimEmptyIffAllWhitespace(s: string)
    ensures Trim(s) == "" <==> AllWhitespace(s)
  {
    var t := TrimStart(s);
    if t == [] {
      assert s[..|s|] == s;
    } else {
      assert s[|s| - |t|] == t[0];
    }
  }

  // ---------------------------------------------------------------------
  // UTF-16 and code points
  // ---------------------------------------------------------------------

  /** A UTF-16 code unit: what a JavaScript string is made of. */
  newtype CodeUnit = x: int | 0 <= x < 0x1_0000

  predicate IsHighSurrogate(u: CodeUnit) { 0xD800 <= u < 0xDC00 }

  predicate IsLowSurrogate(u: CodeUnit) { 0xDC00 <= u < 0xE000 }

  /** A character outside the Basic Multilingual Plane needs two code units. */
  predicate IsSupplementary(c: char) { c as int >= 0x1_0000 }

  /** The UTF-16 encoding of one scalar value: one unit, or a high/low surrogate pair. */
  function EncodeChar(c: char): (u: seq<CodeUnit>)
    ensures |u| == if IsSupplementary(c) then 2 else 1
    ensures !IsSupplementary(c) ==> u[0] as int == c as int && !IsHighSurrogate(u[0])
    ensures IsSupplementary(c) ==> IsHighSurrogate(u[0]) && IsLowSurrogate(u[1])
    ensures IsSupplementary(c) ==>
      c as int == 0x1_0000 + (u[0] as int - 0xD800) * 0x400 + (u[1] as int - 0xDC00)
  {
    var n := c as int;
    if n < 0x1_0000 then [n as CodeUnit]
    else
      var hi := 0xD800 + (n - 0x1_0000) / 0x400;
      var lo := 0xDC00 + (n - 0x1_0000) % 0x400;
      [hi as CodeUnit, lo as CodeUnit]
  }

  /** The JavaScript string holding `s`. */
  function Utf16(s: string): seq<CodeUnit>
  {
    if s == [] then [] else EncodeChar(s[0]) + Utf16(s[1..])
  }

  /** The number of characters of `s` outside the Basic Multilingual Plane. */
  function SupplementaryCount(s: string): nat
  {
    if s == [] then 0 else (if IsSupplementary(s[0]) then 1 else 0) + SupplementaryCount(s[1..])
  }

  /**
   * The length of `[...u]`: the string iterator yields a high surrogate and
   * the low surrogate right after it as one element, and every other code
   * unit (lone surrogates included) as an element of its own.
   */
  function CodePointCount(u: seq<CodeUnit>): nat
  {
    if u == [] then 0
    else if |u| >= 2 && IsHighSurrogate(u[0]) && IsLowSurrogate(u[1]) then 1 + CodePointCount(u[2..])
    else 1 + CodePointCount(u[1..])
  }

  /** Some high surrogate is immediately followed by a low surrogate. */
  ghost predicate HasSurrogatePair(u: seq<CodeUnit>)
  {
    exists i | 0 <= i < |u| - 1 :: IsHighSurrogate(u[i]) && IsLowSurrogate(u[i + 1])
  }

  /** The encoding is |s| units long plus one for every supplementary character. */
  lemma {:induction false} Utf16Length(s: string)
    ensures |Utf16(s)| == |s| + SupplementaryCount(s)
  {
    if s != [] {
      Utf16Length(s[1..]);
    }
  }

  /** Counting the code points of an encoded string gives back its number of characters. */
  lemma {:induction false} CodePointCountOfUtf16(s: string)
    ensures CodePointCount(Utf16(s)) == |s|
  {
    if s != [] {
      var e, rest := EncodeChar(s[0]), Utf16(s[1..]);
      CodePointCountOfUtf16(s[1..]);
      if IsSupplementary(s[0]) {
        assert (e + rest)[2..] == rest;
      } else {
        assert (e + rest)[1..] == rest;
      }
    }
  }

  /** `[...u].length` never exceeds `u.length`. */
  lemma {:induction false} CodePointCountBound(u: seq<CodeUnit>)
    ensures CodePointCount(u) <= |u|
  {
    if u != [] {
      if |u| >= 2 && IsHighSurrogate(u[0]) && IsLowSurrogate(u[1]) {
        CodePointCountBound(u[2..]);
      } else {
        CodePointCountBound(u[1..]);
      }
    }
  }

  /** `[...u].length == u.length` exactly when `u` holds no surrogate pair. */
  lemma {:induction false} CodePointCountExact(u: seq<CodeUnit>)
    ensures CodePointCount(u) == |u| <==> !HasSurrogatePair(u)
  {
    if u == [] {
    } else if |u| >= 2 && IsHighSurrogate(u[0]) && IsLowSurrogate(u[1]) {
      CodePointCountBound(u[2..]);
      assert HasSurrogatePair(u) by {
        assert IsHighSurrogate(u[0]) && IsLowSurrogate(u[0 + 1]);
      }
    } else {
      var t := u[1..];
      CodePointCountExact(t);
      if HasSurrogatePair(u) {
        var i :| 0 <= i < |u| - 1 && IsHighSurrogate(u[i]) && IsLowSurrogate(u[i + 1]);
        assert i != 0;
        assert IsHighSurrogate(t[i - 1]) && IsLowSurrogate(t[i - 1 + 1]);
      }
      if HasSurrogatePair(t) {
        var i :| 0 <= i < |t| - 1 && IsHighSurrogate(t[i]) && IsLowSurrogate(t[i + 1]);
        assert IsHighSurrogate(u[i + 1]) && IsLowSurrogate(u[i + 1 + 1]);
      }
    }
  }

  // ---------------------------------------------------------------------
  // repeat, replace, count
  // ---------------------------------------------------------------------

  /** `unit.repeat(times)` for a non-negative whole `times`. */
  function Repeat(unit: string, times: nat): string
  {
    if times == 0 then "" else unit + Repeat(unit, times - 1)
  }

  /** The repeated string is |unit| * times long. */
  lemma {:induction false} RepeatLength(unit: string, times: nat)
    ensures |Repeat(unit, times)| == |unit| * times
  {
    if times > 0 {
      RepeatLength(unit, times - 1);
      assert |unit| * times == |unit| * (times - 1) + |unit|;
    }
  }

  /** The number of occurrences of `c` in `s`. */
  function Count(s: string, c: char): nat
  {
    if s == [] then 0 else (if s[0] == c then 1 else 0) + Count(s[1..], c)
  }

  lemma {:induction false} CountAppend(a: string, b: string, c: char)
    ensures Count(a + b, c) == Count(a, c) + Count(b, c)
  {
    if a == [] {
      assert a + b == b;
    } else {
      assert (a + b)[0] == a[0];
      assert (a + b)[1..] == a[1..] + b;
      CountAppend(a[1..], b, c);
    }
  }

  /** `s.replace(/c/g, r)` for a single-character pattern `c`. */
  function ReplaceAll(s: string, c: char, r: string): string
  {
    if s == [] then [] else (if s[0] == c then r else [s[0]]) + ReplaceAll(s[1..], c, r)
  }

  /** Replacing distributes over concatenation. */
  lemma {:induction false} ReplaceAllAppend(a: string, b: string, c: char, r: string)
    ensures ReplaceAll(a + b, c, r) == ReplaceAll(a, c, r) + ReplaceAll(b, c, r)
  {
    if a == [] {
      assert a + b == b;
    } else {
      assert (a + b)[0] == a[0];
      assert (a + b)[1..] == a[1..] + b;
      ReplaceAllAppend(a[1..], b, c, r);
    }
  }

  /** Replacing a character that does not occur changes nothing. */
  lemma {:induction false} ReplaceAllAbsent(s: string, c: char, r: string)
    requires c !in s
    ensures ReplaceAll(s, c, r) == s
  {
    if s != [] {
      assert s[0] in s;
      ReplaceAllAbsent(s[1..], c, r);
      assert [s[0]] + s[1..] == s;
    }
  }

  /** Every occurrence of `c` grows by |r| - 1 characters, and nothing else moves. */
  lemma {:induction false} ReplaceAllLength(s: string, c: char, r: string)
    ensures |ReplaceAll(s, c, r)| == |s| + Count(s, c) * (|r| - 1)
  {
    if s != [] {
      ReplaceAllLength(s[1..], c, r);
      var n := Count(s[1..], c);
      if s[0] == c {
        assert (n + 1) * (|r| - 1) == n * (|r| - 1) + (|r| - 1);
      }
    }
  }

  /** Replacing `c` by a text without `d` keeps the count of a different character `d`. */
  lemma {:induction false} ReplaceAllCount(s: string, c: char, r: string, d: char)
    requires c != d && d !in r
    ensures Count(ReplaceAll(s, c, r), d) == Count(s, d)
  {
    if s != [] {
      var head := if s[0] == c then r else [s[0]];
      ReplaceAllCount(s[1..], c, r, d);
      assert ReplaceAll(s, c, r) == head + ReplaceAll(s[1..], c, r);
      CountAppend(head, ReplaceAll(s[1..], c, r), d);
      if s[0] == c {
        CountAbsent(r, d);
      } else {
        assert head[1..] == [];
      }
    }
  }

  /** A character that does not occur has count 0. */
  lemma {:induction false} CountAbsent(s: string, c: char)
    requires c !in s
    ensures Count(s, c) == 0
  {
    if s != [] {
      assert s[0] in s;
      CountAbsent(s[1..], c);
    }
  }

  // ---------------------------------------------------------------------
  // join and split
  // ---------------------------------------------------------------------

  /** `parts.join(sep)` for a one-character separator. */
  function Join(parts: seq<string>, sep: char): string
  {
    if |parts| == 0 then ""
    else if |parts| == 1 then parts[0]
    else parts[0] + [sep] + Join(parts[1..], sep)
  }

  /** `s.split(sep)` for a one-character separator: never empty, one more piece than separators. */
  function Split(s: string, sep: char): (pieces: seq<string>)
    ensures |pieces| == Count(s, sep) + 1
  {
    if s == [] then [""]
    else
      var rest := Split(s[1..], sep);
      if s[0] == sep then [""] + rest
      else [[s[0]] + rest[0]] + rest[1..]
  }

  /** Splitting a word that holds no separator, followed by a separator, yields the word first. */
  lemma {:induction false} SplitAfterWord(w: string, sep: char, tail: string)
    requires sep !in w
    ensures Split(w + [sep] + tail, sep) == [w] + Split(tail, sep)
  {
    if w != [] {
      assert w[0] in w;
      assert (w + [sep] + tail)[0] == w[0];
      assert (w + [sep] + tail)[1..] == w[1..] + [sep] + tail;
      SplitAfterWord(w[1..], sep, tail);
      assert [w[0]] + w[1..] == w;
    } else {
      assert (w + [sep] + tail)[1..] == tail;
    }
  }

  /** Splitting a word that holds no separator yields that word alone. */
  lemma {:induction false} SplitWord(w: string, sep: char)
    requires sep !in w
    ensures Split(w, sep) == [w]
  {
    if w != [] {
      assert w[0] in w;
      SplitWord(w[1..], sep);
      assert [w[0]] + w[1..] == w;
    }
  }

  /** `split` undoes `join` when no part holds the separator. */
  lemma {:induction false} SplitJoin(parts: seq<string>, sep: char)
    requires |parts| > 0
    requires forall i | 0 <= i < |parts| :: sep !in parts[i]
    ensures Split(Join(parts, sep), sep) == parts
  {
    if |parts| == 1 {
      SplitWord(parts[0], sep);
    } else {
      SplitJoin(parts[1..], sep);
      SplitAfterWord(parts[0], sep, Join(parts[1..], sep));
      assert [parts[0]] + parts[1..] == parts;
    }
  }

  /** The joined string ends with the last part. */
  lemma {:induction false} JoinEndsWithLast(parts: seq<string>, sep: char)
    requires |parts| > 0
    ensures var j := Join(parts, sep); var l := parts[|parts| - 1];
      |l| <= |j| && j[|j| - |l|..] == l
  {
    if |parts| > 1 {
      JoinEndsWithLast(parts[1..], sep);
    }
  }

  /** Joining a concatenation puts one separator between the two joins. */
  lemma {:induction false} JoinAppend(a: seq<string>, b: seq<string>, sep: char)
    requires |a| > 0 && |b| > 0
    ensures Join(a + b, sep) == Join(a, sep) + [sep] + Join(b, sep)
  {
    if |a| == 1 {
      assert (a + b)[1..] == b;
    } else {
      assert (a + b)[1..] == a[1..] + b;
      JoinAppend(a[1..], b, sep);
    }
  }
}
