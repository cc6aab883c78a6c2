/**
 * parser/parser.js: the parser interface, its charset helper, and the
 * request wrapper object that parsers write their results into.
 */
module Parsers {
  import opened Wrappers
  import opened JsValues
  import opened Strings

  /**
   * The parser objects a router can be given. The base parser's
   * `getContentTypes` returns nothing; `Custom` is any other object whose
   * `getContentTypes` returns a list of content types.
   */
  datatype Parser = BaseParser | TextParser | FileParser | Custom(id: nat, types: seq<string>)

  /** `parser.getContentTypes()`, `None` for the base parser's `undefined`. */
  function GetContentTypes(p: Parser): (r: Option<seq<string>>)
    ensures r.None? <==> p.BaseParser?
    ensures p.TextParser? ==> r == Some(["text/plain"])
    ensures p.FileParser? ==> r == Some(["multipart/form-data"])
    ensures p.Custom? ==> r == Some(p.types)
  {
    match p
    case BaseParser => None
    case TextParser => Some(["text/plain"])
    case FileParser => Some(["multipart/form-data"])
    case Custom(_, types) => Some(types)
  }

  /** `s.indexOf(c) !== -1` for a single character is membership. */
  lemma FindCharIff(s: string, c: char)
    ensures Find(s, [c]).None? <==> c !in s
  {
    if c in s {
      var j :| 0 <= j < |s| && s[j] == c;
      assert s[j..j + 1] == [c];
      assert OccursAt(s, [c], j);
    } else {
      SplitWithoutChar(s, c);
    }
  }

  /**
   * `__getCharset(contentType)`: "UTF-8" when there is no `;`; otherwise the
   * second `;`-separated segment with its first 8 characters (`charset=`)
   * cut off, whatever they are.
   */
  function GetCharset(contentType: string): (charset: string)
    ensures ';' !in contentType ==> charset == "UTF-8"
  {
    FindCharIff(contentType, ';');
    if IndexOf(contentType, ";") != -1 then
      var pairs := SplitOn(contentType, ";");
      SliceFrom(pairs[1], 8)
    else "UTF-8"
  }

  /**
   * Only the segment after the first `;` counts: for a type `t` and a
   * segment `b`, whatever follows the next `;` is ignored, and the result is
   * `b` without its first 8 characters ("" when `b` is no longer than 8).
   */
  lemma CharsetOfSecondSegment(t: string, b: string, rest: string)
    requires ';' !in t && ';' !in b
    requires rest == [] || rest[0] == ';'
    ensures GetCharset(t + ";" + b + rest) == (if |b| <= 8 then "" else b[8..])
  {
    var ct := t + ";" + b + rest;
    SecondSegment(t, b, rest);
    assert ';' in ct by { assert ct[|t|] == ';'; }
    FindCharIff(ct, ';');
  }

  /** The second `;`-separated segment of `t;b` followed by `;...` or nothing is `b`. */
  lemma SecondSegment(t: string, b: string, rest: string)
    requires ';' !in t && ';' !in b
    requires rest == [] || rest[0] == ';'
    ensures var parts := SplitOn(t + ";" + b + rest, ";"); |parts| >= 2 && parts[1] == b
  {
    var ct := t + ";" + b + rest;
    assert ct == t + [';'] + (b + rest);
    SplitAtFirstChar(t, ';', b + rest);
    if rest == [] {
      assert b + rest == b;
      SplitWithoutChar(b, ';');
    } else {
      assert b + rest == b + [';'] + rest[1..];
      SplitAtFirstChar(b, ';', rest[1..]);
    }
  }

  /** `type;charset=c` gives back `c`. */
  lemma CharsetRoundTrip(t: string, c: string)
    requires ';' !in t && ';' !in c
    ensures GetCharset(t + ";charset=" + c) == c
  {
    var b := "charset=" + c;
    assert t + ";charset=" + c == t + ";" + b + [];
    CharsetOfSecondSegment(t, b, []);
    assert b[8..] == c;
  }

  /** The charset never depends on anything after the second `;`. */
  lemma CharsetIgnoresLaterSegments(t: string, b: string, rest1: string, rest2: string)
    requires ';' !in t && ';' !in b
    requires rest1 == [] || rest1[0] == ';'
    requires rest2 == [] || rest2[0] == ';'
    ensures GetCharset(t + ";" + b + rest1) == GetCharset(t + ";" + b + rest2)
  {
    CharsetOfSecondSegment(t, b, rest1);
    CharsetOfSecondSegment(t, b, rest2);
  }

  /** Values whose `toString()` the model spells out; bodies reach parsers as Buffers. */
  predicate HasKnownText(v: JsValue)
  {
    v.Undefined? || v.Null? || v.Bool? || v.NaN? || v.Str? || (v.Object? && v.kind.Buffer?)
  }

  /** `body.toString()`: throws for `undefined` and `null`; a Buffer gives its (ASCII) content. */
  function BodyText(v: JsValue): (r: Result<string, JsError>)
    requires HasKnownText(v)
    ensures r.Failure? <==> v.Undefined? || v.Null?
    ensures r.Failure? ==> r.error == TypeError
    ensures v.Str? ==> r == Success(v.s)
    ensures v.Object? ==> r == Success(v.kind.data)
  {
    match v
    case Undefined => Failure(TypeError)
    case Null => Failure(TypeError)
    case Bool(b) => Success(if b then "true" else "false")
    case NaN => Success("NaN")
    case Str(s) => Success(s)
    case Object(_, kind, _, _) => Success(kind.data)
  }

  /** One uploaded file as the file parser records it. */
  datatype FileEntry = FileEntry(name: string, contentType: string, size: nat, buffer: string)

  /** A property of the request wrapper. */
  datatype Field = Text(s: string) | Files(entries: seq<FileEntry>) | Value(v: JsValue)

  /** The request wrapper object parsers write into, one field per property name. */
  class RequestWrapper {
    var fields: map<string, Field>
  }
}
