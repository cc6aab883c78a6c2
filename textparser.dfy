/**
 * parser/parser-text.js: the `text/plain` body parser.
 */
module TextParsing {
  import opened JsValues
  import opened Throws
  import opened Parsers

  /** A content type the text parser accepts: a non-empty string. */
  predicate ValidContentType(contentType: JsValue)
  {
    contentType.Str? && |contentType.s| > 0
  }

  /**
   * `TextParser.prototype.parse`. The three checks run in order, each with
   * its own message; `null` stands for every falsy wrapper. On success the
   * wrapper gains `contentType`, `charset` and `content`, written in that
   * order, and nothing else about it changes.
   */
  method Parse(contentType: JsValue, body: JsValue, wrapper: RequestWrapper?) returns (r: Outcome)
    requires HasKnownText(body)
    modifies wrapper
    ensures !ValidContentType(contentType) ==> r == Fail(Error("Invalid content type."))
    ensures ValidContentType(contentType) && !Truthy(body) ==> r == Fail(Error("Invalid body object."))
    ensures ValidContentType(contentType) && Truthy(body) && wrapper == null ==>
              r == Fail(Error("Invalid request wrapper object."))
    ensures r == Pass <==> ValidContentType(contentType) && Truthy(body) && wrapper != null
    ensures r == Pass ==>
              wrapper.fields == old(wrapper.fields)["contentType" := Text("text/plain")]
                                                   ["charset" := Text(GetCharset(contentType.s))]
                                                   ["content" := Text(BodyText(body).value)]
    ensures r != Pass && wrapper != null ==> wrapper.fields == old(wrapper.fields)
  {
    var check := NotString(contentType, "Invalid content type.");
    if check.Fail? { return check; }
    check := EmptyString(contentType, "Invalid content type.");
    if check.Fail? { return check; }
    check := NotDefined(body, "Invalid body object.");
    if check.Fail? { return check; }
    if wrapper == null {
      return Fail(Error("Invalid request wrapper object."));
    }
    var text := BodyText(body).value;
    var charset := GetCharset(contentType.s);
    wrapper.fields := wrapper.fields["contentType" := Text("text/plain")];
    wrapper.fields := wrapper.fields["charset" := Text(charset)];
    wrapper.fields := wrapper.fields["content" := Text(text)];
    return Pass;
  }

  /**
   * Parsing `type;charset=c` into a wrapper records the content type as
   * `text/plain`, the charset `c` and the body's text as the content.
   */
  method ParseWithCharset(t: string, c: string, body: JsValue, wrapper: RequestWrapper)
    requires ';' !in t && ';' !in c
    requires body.Object? && body.kind.Buffer?
    modifies wrapper
    ensures "contentType" in wrapper.fields && wrapper.fields["contentType"] == Text("text/plain")
    ensures "charset" in wrapper.fields && wrapper.fields["charset"] == Text(c)
    ensures "content" in wrapper.fields && wrapper.fields["content"] == Text(body.kind.data)
  {
    CharsetRoundTrip(t, c);
    var r := Parse(Str(t + ";charset=" + c), body, wrapper);
  }
}
