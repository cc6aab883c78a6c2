/**
 * parser/parser-file.js: the `multipart/form-data` body parser. It splits
 * the body on `--boundary` and reads, from every part between the first
 * and the last piece, the file name, the part's content type and the bytes
 * between the blank line and the trailing CRLF.
 */
module FileParsing {
  import opened Wrappers
  import opened JsValues
  import opened Strings
  import opened Throws
  import opened Parsers

  /**
   * `contentType.split(";")[1].split("=")[1]`: a non-string or a type
   * without `;` throws; a second segment without `=` gives `undefined`,
   * which the template literal turns into the text "undefined".
   */
  function Boundary(contentType: JsValue): (r: Result<string, JsError>)
    ensures !contentType.Str? ==> r == Failure(TypeError)
    ensures contentType.Str? ==> (r.Failure? <==> ';' !in contentType.s)
    ensures r.Failure? ==> r.error == TypeError
  {
    if !contentType.Str? then Failure(TypeError)
    else
      var pairs := SplitOn(contentType.s, ";");
      FindCharIff(contentType.s, ';');
      if |pairs| < 2 then Failure(TypeError)
      else
        var kv := SplitOn(pairs[1], "=");
        if |kv| < 2 then Success("undefined") else Success(kv[1])
  }

  /**
   * `type; key=value` gives `value`, provided `value` holds neither `;` nor
   * `=`; anything after a further `;` is ignored.
   */
  lemma BoundaryOf(t: string, k: string, v: string, rest: string)
    requires ';' !in t && ';' !in k && '=' !in k && ';' !in v && '=' !in v
    requires rest == [] || rest[0] == ';'
    ensures Boundary(Str(t + ";" + k + "=" + v + rest)) == Success(v)
  {
    var seg := k + "=" + v;
    assert t + ";" + k + "=" + v + rest == t + ";" + seg + rest;
    assert ';' !in seg by {
      assert forall i | 0 <= i < |seg| :: seg[i] == (if i < |k| then k[i] else if i == |k| then '=' else v[i - |k| - 1]);
    }
    SecondSegment(t, seg, rest);
    assert seg == k + ['='] + v;
    SplitAtFirstChar(k, '=', v);
    SplitWithoutChar(v, '=');
  }

  /** A parameter value that itself contains `=` is cut at it: only the text up to that `=` is the boundary. */
  lemma BoundaryRegroup(t: string, k: string, v: string, w: string)
    ensures t + ";" + k + "=" + v + "=" + w == t + ";" + (k + ['='] + (v + ['='] + w)) + []
  {
  }

  lemma BoundaryCutAtEquals(t: string, k: string, v: string, w: string)
    requires ';' !in t && ';' !in k && '=' !in k && ';' !in v && '=' !in v && ';' !in w
    ensures Boundary(Str(t + ";" + k + "=" + v + "=" + w)) == Success(v)
  {
    var tail := v + ['='] + w;
    var seg := k + ['='] + tail;
    BoundaryRegroup(t, k, v, w);
    SecondSegment(t, seg, []);
    SplitAtFirstChar(k, '=', tail);
    SplitAtFirstChar(v, '=', w);
  }

  /** A second segment without `=` makes the boundary the text "undefined". */
  lemma BoundaryWithoutEquals(t: string, k: string)
    requires ';' !in t && ';' !in k && '=' !in k
    ensures Boundary(Str(t + ";" + k)) == Success("undefined")
  {
    assert t + ";" + k == t + ";" + k + [];
    SecondSegment(t, k, []);
    SplitWithoutChar(k, '=');
  }

  /** The line terminators that `.` in a JS regular expression does not match. */
  predicate IsLineTerminator(c: char)
  {
    c == '\n' || c == '\r' || c == '\U{2028}' || c == '\U{2029}'
  }

  /** Length of the longest prefix of `s` that `.*` matches. */
  function LineRun(s: string): (n: nat)
    ensures n <= |s|
    ensures forall i | 0 <= i < n :: !IsLineTerminator(s[i])
    ensures n < |s| ==> IsLineTerminator(s[n])
  {
    if |s| == 0 || IsLineTerminator(s[0]) then 0 else 1 + LineRun(s[1..])
  }

  /** The line run of `v + rest` is `v` when `v` has no terminator and `rest` starts with one or is empty. */
  lemma {:induction false} LineRunOfConcat(v: string, rest: string)
    requires forall i | 0 <= i < |v| :: !IsLineTerminator(v[i])
    requires rest == [] || IsLineTerminator(rest[0])
    ensures LineRun(v + rest) == |v|
  {
    if |v| > 0 {
      assert (v + rest)[1..] == v[1..] + rest;
      LineRunOfConcat(v[1..], rest);
    } else {
      assert v + rest == rest;
    }
  }

  /** The last index of `c` in `s`. */
  function LastIndexOf(s: string, c: char): (r: Option<nat>)
    ensures r.Some? ==> r.value < |s| && s[r.value] == c && forall i | r.value < i < |s| :: s[i] != c
    ensures r.None? ==> c !in s
  {
    if |s| == 0 then None
    else if s[|s| - 1] == c then Some(|s| - 1)
    else
      var r := LastIndexOf(s[..|s| - 1], c);
      assert forall i | 0 <= i < |s| - 1 :: s[..|s| - 1][i] == s[i];
      r
  }

  const FILENAME_OPEN: string := "filename=\""
  const CONTENT_TYPE_OPEN: string := "Content-Type: "
  const HEADER_END: string := "\r\n\r\n"

  /**
   * `/filename="(.*)"/` tried at index `i`: `.*` is greedy, so the capture
   * runs to the last `"` before the end of the line.
   */
  function FilenameAt(part: string, i: nat): (r: Option<string>)
    requires i <= |part|
    ensures r.Some? ==> OccursAt(part, FILENAME_OPEN + r.value + "\"", i)
    ensures r.Some? ==> forall k | 0 <= k < |r.value| :: !IsLineTerminator(r.value[k])
  {
    if !OccursAt(part, FILENAME_OPEN, i) then None
    else
      var rest := part[i + |FILENAME_OPEN|..];
      var line := rest[..LineRun(rest)];
      match LastIndexOf(line, '"')
      case None => None
      case Some(j) =>
        var v := line[..j];
        assert part[i..i + |FILENAME_OPEN| + j + 1] == FILENAME_OPEN + v + "\"" by {
          assert part[i..i + |FILENAME_OPEN|] == FILENAME_OPEN;
          assert part[i + |FILENAME_OPEN|..i + |FILENAME_OPEN| + j] == v;
          assert part[i + |FILENAME_OPEN| + j] == '"';
        }
        Some(v)
  }

  /** The captured name of the leftmost match at or after `i`. */
  function FilenameFrom(part: string, i: nat): (r: Option<string>)
    requires i <= |part|
    ensures r.Some? ==> exists j | i <= j <= |part| :: FilenameAt(part, j) == r
    ensures r.None? ==> forall j | i <= j <= |part| :: FilenameAt(part, j).None?
    decreases |part| - i
  {
    if FilenameAt(part, i).Some? then FilenameAt(part, i)
    else if i == |part| then None
    else FilenameFrom(part, i + 1)
  }

  /** `/filename="(.*)"/.exec(part)[1]`, `None` where `exec` returns `null`. */
  function FilenameMatch(part: string): (r: Option<string>)
    ensures r.Some? ==> exists j | 0 <= j <= |part| :: OccursAt(part, FILENAME_OPEN + r.value + "\"", j)
    ensures r.Some? ==> forall k | 0 <= k < |r.value| :: !IsLineTerminator(r.value[k])
    ensures r.None? ==> forall j | 0 <= j <= |part| :: FilenameAt(part, j).None?
  {
    FilenameFrom(part, 0)
  }

  /** Starting positions with no match are skipped. */
  lemma {:induction false} FilenameFromSkips(part: string, i: nat, k: nat)
    requires i <= k <= |part|
    requires forall j | i <= j < k :: !OccursAt(part, FILENAME_OPEN, j)
    ensures FilenameFrom(part, i) == FilenameFrom(part, k)
    decreases k - i
  {
    if i < k {
      FilenameFromSkips(part, i + 1, k);
    }
  }

  /**
   * In a part `pre + filename="v" + post` where `filename="` does not occur
   * earlier, `v` has no line terminator and `post` ends the line, the name
   * is `v`, quotes inside `v` included.
   */
  lemma FilenameOfPart(part: string, pre: string, v: string, post: string)
    requires part == pre + FILENAME_OPEN + v + "\"" + post
    requires forall j | 0 <= j < |pre| :: !OccursAt(part, FILENAME_OPEN, j)
    requires forall k | 0 <= k < |v| :: !IsLineTerminator(v[k])
    requires post == [] || IsLineTerminator(post[0])
    ensures FilenameMatch(part) == Some(v)
  {
    var line := v + ['"'];
    assert part == pre + FILENAME_OPEN + (line + post);
    FilenameAtLine(part, pre, v, post);
    FilenameFromSkips(part, 0, |pre|);
  }

  /** The match that starts right after `pre` captures `v`. */
  lemma FilenameAtLine(part: string, pre: string, v: string, post: string)
    requires part == pre + FILENAME_OPEN + (v + ['"'] + post)
    requires forall k | 0 <= k < |v| :: !IsLineTerminator(v[k])
    requires post == [] || IsLineTerminator(post[0])
    ensures FilenameAt(part, |pre|) == Some(v)
  {
    var i := |pre|;
    var line := v + ['"'];
    assert part[i..i + |FILENAME_OPEN|] == FILENAME_OPEN;
    var rest := part[i + |FILENAME_OPEN|..];
    assert rest == line + post;
    forall k | 0 <= k < |line|
      ensures !IsLineTerminator(line[k])
    {
      if k < |v| { assert line[k] == v[k]; }
    }
    LineRunOfConcat(line, post);
    assert rest[..LineRun(rest)] == line;
    assert LastIndexOf(line, '"') == Some(|v|);
    assert line[..|v|] == v;
  }

  /**
   * `/Content-Type: (.*)/.exec(part)[1]`: the rest of the line after the
   * first `Content-Type: `, possibly empty; `None` when there is none.
   */
  function ContentTypeMatch(part: string): (r: Option<string>)
    ensures r.None? <==> forall j :: !OccursAt(part, CONTENT_TYPE_OPEN, j)
    ensures r.Some? ==> exists j | 0 <= j <= |part| :: OccursAt(part, CONTENT_TYPE_OPEN + r.value, j)
    ensures r.Some? ==> forall k | 0 <= k < |r.value| :: !IsLineTerminator(r.value[k])
  {
    match Find(part, CONTENT_TYPE_OPEN)
    case None => None
    case Some(i) =>
      var rest := part[i + |CONTENT_TYPE_OPEN|..];
      var t := rest[..LineRun(rest)];
      assert part[i..i + |CONTENT_TYPE_OPEN| + |t|] == CONTENT_TYPE_OPEN + t by {
        assert part[i..i + |CONTENT_TYPE_OPEN|] == CONTENT_TYPE_OPEN;
        assert part[i + |CONTENT_TYPE_OPEN|..i + |CONTENT_TYPE_OPEN| + |t|] == t;
      }
      assert OccursAt(part, CONTENT_TYPE_OPEN + t, i);
      Some(t)
  }

  /** In `pre + "Content-Type: " + t + post`, with no earlier header and `post` ending the line, the type is `t`. */
  lemma ContentTypeOfPart(part: string, pre: string, t: string, post: string)
    requires part == pre + CONTENT_TYPE_OPEN + t + post
    requires forall j | 0 <= j < |pre| :: !OccursAt(part, CONTENT_TYPE_OPEN, j)
    requires forall k | 0 <= k < |t| :: !IsLineTerminator(t[k])
    requires post == [] || IsLineTerminator(post[0])
    ensures ContentTypeMatch(part) == Some(t)
  {
    var i := |pre|;
    assert part[i..i + |CONTENT_TYPE_OPEN|] == CONTENT_TYPE_OPEN;
    assert OccursAt(part, CONTENT_TYPE_OPEN, i);
    assert Find(part, CONTENT_TYPE_OPEN) == Some(i);
    var rest := part[i + |CONTENT_TYPE_OPEN|..];
    assert rest == t + post;
    LineRunOfConcat(t, post);
  }

  /**
   * `part.substring(part.indexOf("\r\n\r\n") + 4, part.length - 2)`; without
   * a blank line `indexOf` gives -1 and the start is 3.
   */
  function FileContent(part: string): (content: string)
    ensures |content| <= |part|
  {
    Substring(part, Strings.IndexOf(part, HEADER_END) + 4, |part| - 2)
  }

  /**
   * Without a blank line the content starts at index 3. A part of at least
   * 5 characters loses its first 3 and last 2; a shorter one has its ends
   * swapped by `substring`, so its content is taken from before index 3.
   */
  lemma FileContentWithoutBlankLine(part: string)
    requires Find(part, HEADER_END).None?
    ensures 5 <= |part| ==> FileContent(part) == part[3..|part| - 2]
    ensures |part| == 4 ==> FileContent(part) == part[2..3]
    ensures |part| < 4 ==> FileContent(part) == part[if |part| < 2 then 0 else |part| - 2..]
  {
    assert Strings.IndexOf(part, HEADER_END) + 4 == 3;
    HeadlessContent(part);
  }

  /** `substring(3, length - 2)`, the content of a part without a blank line. */
  lemma HeadlessContent(s: string)
    ensures 5 <= |s| ==> Substring(s, 3, |s| - 2) == s[3..|s| - 2]
    ensures |s| == 4 ==> Substring(s, 3, |s| - 2) == s[2..3]
    ensures |s| < 4 ==> Substring(s, 3, |s| - 2) == s[if |s| < 2 then 0 else |s| - 2..]
  {
  }

  /** The content is what lies between the first blank line and the part's final two characters (its CRLF). */
  lemma FileContentOfPart(part: string, head: string, content: string, tail: string)
    requires part == head + HEADER_END + content + tail
    requires forall j | 0 <= j < |head| :: !OccursAt(part, HEADER_END, j)
    requires |tail| == 2
    ensures FileContent(part) == content
  {
    var i := |head|;
    assert part[i..i + 4] == HEADER_END;
    assert OccursAt(part, HEADER_END, i);
    assert Find(part, HEADER_END) == Some(i);
    assert part[i + 4..|part| - 2] == content;
  }

  /**
   * One file entry from one part: both regular expressions must match
   * (reading `[1]` of a `null` match throws), and the size is the number of
   * bytes of the content.
   */
  function FileFor(part: string): (r: Result<FileEntry, JsError>)
    ensures r.Success? <==> FilenameMatch(part).Some? && ContentTypeMatch(part).Some?
    ensures r.Failure? ==> r.error == TypeError
    ensures r.Success? ==> r.value.name == FilenameMatch(part).value
    ensures r.Success? ==> r.value.contentType == ContentTypeMatch(part).value
    ensures r.Success? ==> r.value.buffer == FileContent(part) && r.value.size == |r.value.buffer|
  {
    var filenameMatch := FilenameMatch(part);
    var contentTypeMatch := ContentTypeMatch(part);
    if filenameMatch.None? || contentTypeMatch.None? then Failure(TypeError)
    else
      var content := FileContent(part);
      Success(FileEntry(filenameMatch.value, contentTypeMatch.value, |content|, content))
  }

  /** The pieces of the split body the loop visits: all but the first and the last. */
  function InnerParts(parts: seq<string>): (inner: seq<string>)
    ensures |parts| >= 2 ==> |inner| == |parts| - 2
    ensures |parts| < 2 ==> inner == []
    ensures forall i | 0 <= i < |inner| :: inner[i] == parts[i + 1]
  {
    if |parts| < 2 then [] else parts[1..|parts| - 1]
  }

  /** What each part gives: a file entry, or the error reading it threw. */
  function Results(parts: seq<string>): (rs: seq<Result<FileEntry, JsError>>)
    ensures |rs| == |parts|
    ensures forall i | 0 <= i < |parts| :: rs[i] == FileFor(parts[i])
  {
    seq(|parts|, i requires 0 <= i < |parts| => FileFor(parts[i]))
  }

  /** The files collected from a run of parts and whether a part threw. */
  datatype Collected = Collected(files: seq<FileEntry>, failed: bool)

  /** The loop over the parts' results as a left fold that stops at the first error. */
  function Collect(rs: seq<Result<FileEntry, JsError>>): (c: Collected)
    ensures |c.files| <= |rs|
    ensures !c.failed ==> |c.files| == |rs|
  {
    if |rs| == 0 then Collected([], false)
    else
      var prev := Collect(rs[..|rs| - 1]);
      if prev.failed then prev
      else
        match rs[|rs| - 1]
        case Failure(_) => Collected(prev.files, true)
        case Success(f) => Collected(prev.files + [f], false)
  }

  /**
   * The collected files are the successful results in order, and when a
   * part threw it is the one right after them.
   */
  lemma {:induction false} CollectEntries(rs: seq<Result<FileEntry, JsError>>)
    ensures forall i | 0 <= i < |Collect(rs).files| :: rs[i] == Success(Collect(rs).files[i])
    ensures Collect(rs).failed ==> |Collect(rs).files| < |rs| && rs[|Collect(rs).files|].Failure?
  {
    if |rs| > 0 {
      var init := rs[..|rs| - 1];
      var prev := Collect(init);
      var c := Collect(rs);
      CollectEntries(init);
      assert forall i | 0 <= i < |init| :: init[i] == rs[i];
      if !prev.failed && rs[|rs| - 1].Success? {
        assert c.files == prev.files + [rs[|rs| - 1].value];
        forall i | 0 <= i < |c.files|
          ensures rs[i] == Success(c.files[i])
        {
          if i < |prev.files| { assert c.files[i] == prev.files[i]; }
        }
      }
    }
  }

  /** One more result extends the fold by one step. */
  lemma CollectStep(rs: seq<Result<FileEntry, JsError>>, k: nat)
    requires 1 <= k <= |rs|
    requires !Collect(rs[..k - 1]).failed
    ensures rs[k - 1].Failure? ==> Collect(rs[..k]) == Collected(Collect(rs[..k - 1]).files, true)
    ensures rs[k - 1].Success? ==> Collect(rs[..k]) == Collected(Collect(rs[..k - 1]).files + [rs[k - 1].value], false)
  {
    assert rs[..k][..k - 1] == rs[..k - 1];
  }

  /** Once a prefix has thrown, the later results change nothing. */
  lemma {:induction false} CollectStopsAtFailure(rs: seq<Result<FileEntry, JsError>>, k: nat)
    requires k <= |rs|
    requires Collect(rs[..k]).failed
    ensures Collect(rs) == Collect(rs[..k])
    decreases |rs| - k
  {
    if k < |rs| {
      var init := rs[..|rs| - 1];
      assert init[..k] == rs[..k];
      CollectStopsAtFailure(init, k);
    } else {
      assert rs[..k] == rs;
    }
  }

  /** The split of the body on the delimiter `--boundary`. */
  function Parts(text: string, boundary: string): (parts: seq<string>)
    ensures Join(parts, "--" + boundary) == text
  {
    JoinSplit(text, "--" + boundary);
    SplitOn(text, "--" + boundary)
  }

  /**
   * The loop of `FileParser.parse` over the pieces of the split body, from
   * index 1 up to but excluding the last: the entries pushed, and whether
   * a part threw before the loop ended.
   */
  method CollectFiles(parts: seq<string>) returns (files: seq<FileEntry>, failed: bool)
    ensures Collected(files, failed) == Collect(Results(InnerParts(parts)))
  {
    files := [];
    ghost var rs := Results(InnerParts(parts));
    var i := 1;
    while i < |parts| - 1
      invariant 1 <= i && i - 1 <= |rs|
      invariant |parts| >= 2 ==> i <= |parts| - 1
      invariant Collect(rs[..i - 1]) == Collected(files, false)
    {
      var entry := FileFor(parts[i]);
      assert rs[i - 1] == entry;
      CollectStep(rs, i);
      if entry.Failure? {
        CollectStopsAtFailure(rs, i);
        return files, true;
      }
      files := files + [entry.value];
      i := i + 1;
    }
    assert rs[..i - 1] == rs;
    return files, false;
  }

  /**
   * `FileParser.parse`. Reading the body, the boundary and the wrapper can
   * throw, in that order, before anything changes; then `files` is reset
   * and one entry per inner part is pushed, until a part throws.
   */
  method Parse(contentType: JsValue, body: JsValue, wrapper: RequestWrapper?) returns (r: Outcome)
    requires HasKnownText(body)
    modifies wrapper
    ensures BodyText(body).Failure? || Boundary(contentType).Failure? || wrapper == null ==> r == Fail(TypeError)
    ensures (BodyText(body).Failure? || Boundary(contentType).Failure?) && wrapper != null ==>
              wrapper.fields == old(wrapper.fields)
    ensures BodyText(body).Success? && Boundary(contentType).Success? && wrapper != null ==>
              var c := Collect(Results(InnerParts(Parts(BodyText(body).value, Boundary(contentType).value))));
              && wrapper.fields == old(wrapper.fields)["files" := Files(c.files)]
              && (r == Pass <==> !c.failed)
              && (r != Pass ==> r == Fail(TypeError))
  {
    var text := BodyText(body);
    if text.Failure? { return Fail(TypeError); }
    var boundary := Boundary(contentType);
    if boundary.Failure? { return Fail(TypeError); }
    var parts := Parts(text.value, boundary.value);
    if wrapper == null { return Fail(TypeError); }
    r := StoreFiles(parts, wrapper);
  }

  /** The part of `FileParser.parse` after the reads: reset `files`, then push one entry per inner part. */
  method StoreFiles(parts: seq<string>, wrapper: RequestWrapper) returns (r: Outcome)
    modifies wrapper
    ensures var c := Collect(Results(InnerParts(parts)));
              && wrapper.fields == old(wrapper.fields)["files" := Files(c.files)]
              && (r == Pass <==> !c.failed)
              && (r != Pass ==> r == Fail(TypeError))
  {
    wrapper.fields := wrapper.fields["files" := Files([])];
    var files, failed := CollectFiles(parts);
    wrapper.fields := wrapper.fields["files" := Files(files)];
    r := if failed then Fail(TypeError) else Pass;
  }

  /**
   * When every inner part is well formed there is one file per part, that
   * is two fewer than the pieces of the split body.
   */
  lemma FilesPerPart(text: string, boundary: string)
    requires |Parts(text, boundary)| >= 2
    requires !Collect(Results(InnerParts(Parts(text, boundary)))).failed
    ensures |Collect(Results(InnerParts(Parts(text, boundary)))).files| == |Parts(text, boundary)| - 2
    ensures forall i | 0 <= i < |Collect(Results(InnerParts(Parts(text, boundary)))).files| ::
              var f := Collect(Results(InnerParts(Parts(text, boundary)))).files[i];
              FileFor(Parts(text, boundary)[i + 1]) == Success(f) && f.size == |f.buffer|
  {
    CollectEntries(Results(InnerParts(Parts(text, boundary))));
  }
}
