/**
 * router.js: the Router class. It keeps the routes per HTTP method, the
 * parsers per content type and the not-found handler, and resolves an
 * incoming request to the first route whose pattern accepts its path.
 */
module HttpRouter {
  import opened Wrappers
  import opened JsValues
  import opened Throws
  import opened Strings
  import opened Routes
  import opened Parsers

  /** Node's `http.METHODS`. */
  const METHODS: seq<string> := [
    "ACL", "BIND", "CHECKOUT", "CONNECT", "COPY", "DELETE", "GET", "HEAD", "LINK", "LOCK",
    "M-SEARCH", "MERGE", "MKACTIVITY", "MKCALENDAR", "MKCOL", "MOVE", "NOTIFY", "OPTIONS",
    "PATCH", "POST", "PROPFIND", "PROPPATCH", "PURGE", "PUT", "REBIND", "REPORT", "SEARCH",
    "SOURCE", "SUBSCRIBE", "TRACE", "UNBIND", "UNLINK", "UNLOCK", "UNSUBSCRIBE"]

  /** The methods as the JS array of strings `notInArray` searches. */
  const METHOD_VALUES: seq<JsValue> := Strs(METHODS)

  /** Each string as a JS string value. */
  function Strs(ss: seq<string>): (vs: seq<JsValue>)
    ensures |vs| == |ss|
    ensures forall i | 0 <= i < |ss| :: vs[i] == Str(ss[i])
  {
    if ss == [] then [] else [Str(ss[0])] + Strs(ss[1..])
  }

  /** The message ends with the array, which string concatenation joins with commas. */
  const INVALID_METHOD: string := "Invalid method. It should be one of the following. Valid methods: " + Join(METHODS, ",")

  const INVALID_REQUEST: string := "Invalid request object."
  const INVALID_RESPONSE: string := "Invalid response object."
  const PARSER_MISSING: string := "The required parser is missing."
  const ROUTE_MISSING: string := "The eligiable path not found."

  /**
   * Names every plain object inherits from `Object.prototype`; looking one
   * of them up in the route table finds a truthy value that is not a list of
   * routes.
   */
  const OBJECT_PROTOTYPE_KEYS: set<string> := {
    "constructor", "hasOwnProperty", "isPrototypeOf", "propertyIsEnumerable", "toString",
    "toLocaleString", "valueOf", "__proto__", "__defineGetter__", "__defineSetter__",
    "__lookupGetter__", "__lookupSetter__"}

  /** `m` is one of `http.METHODS`. */
  predicate IsMethod(m: string)
  {
    m in METHODS
  }

  /** No method name is empty. */
  lemma NoEmptyMethod()
    ensures !IsMethod("")
  {
    assert forall i | 0 <= i < |METHODS| :: |METHODS[i]| > 0;
  }

  /** `notInArray(v, names, ...)` over an array of strings passes exactly for a string among the names. */
  lemma StringArrayCheck(verb: JsValue, names: seq<string>, message: string)
    ensures NotInArray(verb, Strs(names), message) == Pass <==> verb.Str? && verb.s in names
  {
    var vs := Strs(names);
    if verb.Str? && verb.s in names {
      var i :| 0 <= i < |names| && names[i] == verb.s;
      assert StrictEquals(vs[i], verb);
    }
    if NotInArray(verb, vs, message) == Pass {
      var i :| 0 <= i < |vs| && StrictEquals(vs[i], verb);
      assert vs[i] == Str(names[i]);
    }
  }

  /** `notInArray(method, METHODS, ...)` passes exactly for the listed method names. */
  lemma MethodCheck(verb: JsValue, message: string)
    ensures NotInArray(verb, METHOD_VALUES, message) == Pass <==> verb.Str? && IsMethod(verb.s)
  {
    StringArrayCheck(verb, METHODS, message);
  }

  /**
   * The checks `addRoute` runs on its method argument, in order: a string,
   * non-empty, and one of `http.METHODS`.
   */
  function CheckMethod(verb: JsValue): (r: Outcome)
    ensures r == Pass <==> verb.Str? && IsMethod(verb.s)
    ensures !(verb.Str? && |verb.s| > 0) ==> r == Fail(Error("Invalid method."))
    ensures verb.Str? && |verb.s| > 0 && !IsMethod(verb.s) ==> r == Fail(Error(INVALID_METHOD))
  {
    assert !IsMethod("") by { NoEmptyMethod(); }
    assert NotInArray(verb, METHOD_VALUES, INVALID_METHOD) == Pass <==> verb.Str? && IsMethod(verb.s) by {
      MethodCheck(verb, INVALID_METHOD);
    }
    if NotString(verb, "Invalid method.").Fail? then NotString(verb, "Invalid method.")
    else if EmptyString(verb, "Invalid method.").Fail? then EmptyString(verb, "Invalid method.")
    else NotInArray(verb, METHOD_VALUES, INVALID_METHOD)
  }

  /** A route as `new Route` leaves it: a non-empty template that compiles, and a function. */
  predicate WellFormed(route: Route)
  {
    |route.path| > 0 && IsFunction(route.handler) && !NothingToRepeat(route.path)
  }

  /** The parser map after `that.#parsers[type] = parser` for each type in turn. */
  function BindAll(m: map<string, Parser>, types: seq<string>, p: Parser): (r: map<string, Parser>)
  {
    if types == [] then m else BindAll(m, types[..|types| - 1], p)[types[|types| - 1] := p]
  }

  /** Every listed content type ends up with the parser; every other entry is kept. */
  lemma {:induction false} BindAllLookup(m: map<string, Parser>, types: seq<string>, p: Parser)
    ensures forall k :: k in BindAll(m, types, p) <==> k in m || k in types
    ensures forall k | k in types :: BindAll(m, types, p)[k] == p
    ensures forall k | k in m && k !in types :: BindAll(m, types, p)[k] == m[k]
  {
    if types != [] {
      var init := types[..|types| - 1];
      BindAllLookup(m, init, p);
      assert types == init + [types[|types| - 1]];
    }
  }

  /**
   * The `for...in` order of the parser map's keys after those assignments:
   * a new key goes to the end, a key assigned again keeps its place.
   */
  function AddKeys(keys: seq<string>, types: seq<string>): (r: seq<string>)
  {
    if types == [] then keys
    else
      var ks := AddKeys(keys, types[..|types| - 1]);
      if types[|types| - 1] in ks then ks else ks + [types[|types| - 1]]
  }

  /** No key is listed twice. */
  predicate Distinct(keys: seq<string>)
  {
    forall i, j | 0 <= i < j < |keys| :: keys[i] != keys[j]
  }

  /** The old keys keep their order in front; the new ones follow once each. */
  lemma {:induction false} AddKeysOrder(keys: seq<string>, types: seq<string>)
    ensures keys <= AddKeys(keys, types)
    ensures forall k :: k in AddKeys(keys, types) <==> k in keys || k in types
    ensures Distinct(keys) ==> Distinct(AddKeys(keys, types))
  {
    if types != [] {
      var init := types[..|types| - 1];
      AddKeysOrder(keys, init);
      assert types == init + [types[|types| - 1]];
    }
  }

  /** The index of the first key that `s` starts with. */
  function FirstPrefix(keys: seq<string>, s: string): (r: Option<nat>)
    ensures r.Some? ==> r.value < |keys| && StartsWith(s, keys[r.value])
    ensures r.Some? ==> forall j | 0 <= j < r.value :: !StartsWith(s, keys[j])
    ensures r.None? ==> forall j | 0 <= j < |keys| :: !StartsWith(s, keys[j])
  {
    if keys == [] then None
    else if StartsWith(s, keys[0]) then Some(0)
    else
      match FirstPrefix(keys[1..], s)
      case None => None
      case Some(i) => Some(i + 1)
  }

  /**
   * What `#getRoute` settles with for a list of routes: the first route
   * that accepts the path, the error `match` throws for an unusable path,
   * or the rejection when none accepts it.
   */
  function FirstRoute(routes: seq<Route>, pathname: string): (r: Result<Route, JsError>)
    ensures |routes| == 0 ==> r == Failure(Error(ROUTE_MISSING))
    ensures |routes| > 0 && |pathname| == 0 ==> r == Failure(Error("Invalid url."))
    ensures |pathname| > 0 ==>
              (r.Success? <==> exists i | 0 <= i < |routes| :: Match(routes[i], Str(pathname)) == Success(true))
    ensures |pathname| > 0 && r.Failure? ==> r.error == Error(ROUTE_MISSING)
    ensures r.Success? ==>
              exists i | 0 <= i < |routes| :: routes[i] == r.value && Match(routes[i], Str(pathname)) == Success(true) &&
                forall j | 0 <= j < i :: Match(routes[j], Str(pathname)) == Success(false)
  {
    if routes == [] then Failure(Error(ROUTE_MISSING))
    else
      match Match(routes[0], Str(pathname))
      case Failure(e) => Failure(e)
      case Success(true) => Success(routes[0])
      case Success(false) =>
        var r := FirstRoute(routes[1..], pathname);
        assert forall i | 1 <= i < |routes| :: routes[i] == routes[1..][i - 1];
        if r.Success? then
          var i :| 0 <= i < |routes[1..]| && routes[1..][i] == r.value && Match(routes[1..][i], Str(pathname)) == Success(true) &&
                   forall j | 0 <= j < i :: Match(routes[1..][j], Str(pathname)) == Success(false);
          assert routes[i + 1] == r.value;
          r
        else r
  }

  /** `1 < p.length && "/" === p[p.length - 1]` cuts one trailing slash, keeping a lone "/". */
  function NormalizePath(p: string): (q: string)
    ensures |p| > 1 && p[|p| - 1] == '/' ==> q + "/" == p
    ensures !(|p| > 1 && p[|p| - 1] == '/') ==> q == p
  {
    if 1 < |p| && p[|p| - 1] == '/' then p[..|p| - 1] else p
  }

  /** A path and the same path with one more trailing slash reach the same route. */
  lemma TrailingSlashIgnored(p: string)
    requires |p| > 0
    ensures NormalizePath(p + "/") == p
  {
    assert (p + "/")[..|p|] == p;
  }

  /** Only one slash is cut: "/a//" becomes "/a/", which no longer reaches "/a". */
  lemma OneSlashOnly(p: string)
    requires |p| > 0
    ensures NormalizePath(p + "//") == p + "/"
  {
    assert (p + "//")[..|p| + 1] == p + "/";
  }

  /** How a call to `navigate` ends. */
  datatype Navigation =
      /** the promise `navigate` returns rejects with this error */
    | Rejected(error: JsError)
      /** the not-found handler is called with the response */
    | NotFound
      /** the route's handler is called for this path, with this parser's result */
    | Dispatched(route: Route, pathname: string, parser: Option<Parser>)

  /** Where `navigate` stands once both lookups have settled. */
  datatype Resolution =
    | Settled(navigation: Navigation)
    | Resolved(route: Route, pathname: string, parser: Option<Parser>)

  /**
   * The `.then` callback as written: it calls `route.execute`, which Route
   * does not define, so the call throws a TypeError and `.catch` calls the
   * not-found handler.
   */
  function SettleAsWritten(r: Resolution): (n: Navigation)
    ensures r.Settled? ==> n == r.navigation
    ensures r.Resolved? ==> n == NotFound
  {
    match r
    case Settled(n) => n
    case Resolved(_, _, _) => NotFound
  }

  /** The `.then` callback as intended: the found route's handler receives the request. */
  function Settle(r: Resolution): (n: Navigation)
    ensures r.Settled? ==> n == r.navigation
    ensures r.Resolved? ==> n == Dispatched(r.route, r.pathname, r.parser)
  {
    match r
    case Settled(n) => n
    case Resolved(route, pathname, parser) => Dispatched(route, pathname, parser)
  }

  /** Every request that finds its route and parser falls back to the not-found handler as written. */
  lemma ExecuteIsMissing(r: Resolution)
    requires r.Resolved?
    ensures SettleAsWritten(r) == NotFound
    ensures Settle(r) == Dispatched(r.route, r.pathname, r.parser)
  {
  }

  /** The routes registered for a method, none when the method has no list. */
  function RoutesFor(routes: map<string, seq<Route>>, m: string): (rs: seq<Route>)
    ensures m in routes ==> rs == routes[m]
    ensures m !in routes ==> rs == []
  {
    if m in routes then routes[m] else []
  }

  /** Every route of the list is one `new Route` built. */
  ghost predicate AllWellFormed(rs: seq<Route>)
  {
    forall i | 0 <= i < |rs| :: WellFormed(rs[i])
  }

  /** Lists only for listed methods, holding only routes `new Route` built. */
  ghost predicate RouteTable(routes: map<string, seq<Route>>)
  {
    && (forall m | m in routes :: IsMethod(m))
    && (forall m | m in routes :: AllWellFormed(routes[m]))
  }

  /** The keys list each bound content type once, and no content type is bound to the base parser. */
  ghost predicate ParserTable(keys: seq<string>, parsers: map<string, Parser>)
  {
    && (forall k :: k in parsers <==> k in keys)
    && Distinct(keys)
    && (forall k | k in parsers :: !parsers[k].BaseParser?)
  }

  /** Appending well-formed routes to a listed method's list, created empty if missing, keeps the table valid. */
  lemma RouteTableAppend(routes: map<string, seq<Route>>, m: string, extra: seq<Route>)
    requires RouteTable(routes) && IsMethod(m)
    requires AllWellFormed(extra)
    ensures RouteTable(routes[m := RoutesFor(routes, m) + extra])
  {
    var old_rs := RoutesFor(routes, m);
    var rs := old_rs + extra;
    assert AllWellFormed(old_rs);
    forall i | 0 <= i < |rs|
      ensures WellFormed(rs[i])
    {
      if i < |old_rs| {
        assert rs[i] == old_rs[i];
      } else {
        assert rs[i] == extra[i - |old_rs|];
      }
    }
  }

  /** The route `new Route(path, handler)` builds, as a list of one, or nothing when it throws. */
  function Built(path: JsValue, handler: JsValue): (rs: seq<Route>)
    ensures |rs| <= 1
    ensures |rs| == 1 <==> NewRoute(path, handler).Success?
    ensures forall i | 0 <= i < |rs| :: rs[i] == NewRoute(path, handler).value
    ensures AllWellFormed(rs)
  {
    if NewRoute(path, handler).Success? then [NewRoute(path, handler).value] else []
  }

  /** `req.headers["content-type"]`: a property of an object, `undefined` on any other value that has no such property. */
  function HeaderContentType(headers: JsValue): JsValue
  {
    if headers.Object? then Get(headers, "content-type") else Undefined
  }

  /** The request has `method`, `url` and `headers` and the response is truthy: the checks `navigate` makes before any lookup. */
  predicate Admitted(req: JsValue, res: JsValue)
  {
    req.Object? && HasProperty(req, "method") && HasProperty(req, "url") && HasProperty(req, "headers") && Truthy(res)
  }

  /** The five checks pass exactly on an admitted request. */
  lemma AdmittedChecks(req: JsValue, res: JsValue)
    ensures Admitted(req, res) <==>
              && NotDefined(req, INVALID_REQUEST).Pass?
              && NotHave(req, "method", INVALID_REQUEST).Pass?
              && NotHave(req, "url", INVALID_REQUEST).Pass?
              && NotHave(req, "headers", INVALID_REQUEST).Pass?
              && NotDefined(res, INVALID_RESPONSE).Pass?
  {
  }

  class Router {
    var notFoundHandler: JsValue
    var routes: map<string, seq<Route>>
    /** The keys of the parser map in `for...in` order. */
    var parserKeys: seq<string>
    var parsers: map<string, Parser>

    ghost predicate Valid()
      reads this
    {
      IsFunction(notFoundHandler) && RouteTable(routes) && ParserTable(parserKeys, parsers)
    }

    /** `new Router(notFoundHandler)` for a function. */
    constructor (notFoundHandler: JsValue)
      requires IsFunction(notFoundHandler)
      ensures Valid()
      ensures this.notFoundHandler == notFoundHandler
      ensures routes == map[] && parsers == map[] && parserKeys == []
    {
      this.notFoundHandler := notFoundHandler;
      routes := map[];
      parsers := map[];
      parserKeys := [];
    }

    /** `new Router(notFoundHandler)`, which throws unless the handler is a function. */
    static method Create(notFoundHandler: JsValue) returns (r: Result<Router, JsError>)
      ensures r.Failure? <==> !IsFunction(notFoundHandler)
      ensures r.Failure? ==> r.error == Error("Invalid handler.")
      ensures r.Success? ==> fresh(r.value) && r.value.Valid() && r.value.notFoundHandler == notFoundHandler
      ensures r.Success? ==> r.value.routes == map[] && r.value.parsers == map[] && r.value.parserKeys == []
    {
      var check := NotFunction(notFoundHandler, "Invalid handler.");
      if check.Fail? {
        return Failure(check.error);
      }
      var router := new Router(notFoundHandler);
      return Success(router);
    }

    /**
     * `addRoute(method, path, handler)`. The method is checked first and a
     * bad one changes nothing. A listed method gets its (possibly empty)
     * list before the route is built, so a route that `new Route` refuses
     * still leaves that list behind; a built route is appended.
     */
    method AddRoute(verb: JsValue, path: JsValue, handler: JsValue) returns (r: Outcome)
      requires Valid()
      modifies this
      ensures Valid()
      ensures notFoundHandler == old(notFoundHandler) && parsers == old(parsers) && parserKeys == old(parserKeys)
      ensures !(verb.Str? && |verb.s| > 0) ==> r == Fail(Error("Invalid method.")) && routes == old(routes)
      ensures verb.Str? && |verb.s| > 0 && !IsMethod(verb.s) ==>
                r == Fail(Error(INVALID_METHOD)) && routes == old(routes)
      ensures verb.Str? && IsMethod(verb.s) ==>
                && routes == old(routes)[verb.s := RoutesFor(old(routes), verb.s) + Built(path, handler)]
                && (r == Pass <==> NewRoute(path, handler).Success?)
                && (r.Fail? ==> r.error == NewRoute(path, handler).error)
    {
      var check := CheckMethod(verb);
      if check.Fail? { return check; }
      r := AppendRoute(verb.s, path, handler);
    }

    /** The part of `addRoute` after the method check: make sure the list exists, then build and push the route. */
    method AppendRoute(m: string, path: JsValue, handler: JsValue) returns (r: Outcome)
      requires Valid() && IsMethod(m)
      modifies this
      ensures Valid()
      ensures notFoundHandler == old(notFoundHandler) && parsers == old(parsers) && parserKeys == old(parserKeys)
      ensures routes == old(routes)[m := RoutesFor(old(routes), m) + Built(path, handler)]
      ensures r == Pass <==> NewRoute(path, handler).Success?
      ensures r.Fail? ==> r.error == NewRoute(path, handler).error
    {
      var route := NewRoute(path, handler);
      RouteTableAppend(routes, m, Built(path, handler));
      routes := routes[m := RoutesFor(routes, m) + Built(path, handler)];
      r := if route.Success? then Pass else Fail(route.error);
    }

    /**
     * `addParser(parser)`: a missing parser is refused; the base parser's
     * `getContentTypes()` gives `undefined`, whose `forEach` throws;
     * otherwise each content type is bound to the parser.
     */
    method AddParser(parser: Option<Parser>) returns (r: Outcome)
      requires Valid()
      modifies this
      ensures Valid()
      ensures notFoundHandler == old(notFoundHandler) && routes == old(routes)
      ensures parser.None? ==> r == Fail(Error("Invalid parser."))
      ensures parser == Some(BaseParser) ==> r == Fail(TypeError)
      ensures r.Fail? ==> parsers == old(parsers) && parserKeys == old(parserKeys)
      ensures parser.Some? && !parser.value.BaseParser? ==>
                && r == Pass
                && parsers == BindAll(old(parsers), GetContentTypes(parser.value).value, parser.value)
                && parserKeys == AddKeys(old(parserKeys), GetContentTypes(parser.value).value)
    {
      if parser.None? {
        return Fail(Error("Invalid parser."));
      }
      var p := parser.value;
      var types := GetContentTypes(p);
      if types.None? {
        return Fail(TypeError);
      }
      ghost var parsers0, keys0 := parsers, parserKeys;
      var i := 0;
      while i < |types.value|
        invariant 0 <= i <= |types.value|
        invariant parsers == BindAll(parsers0, types.value[..i], p)
        invariant parserKeys == AddKeys(keys0, types.value[..i])
        invariant notFoundHandler == old(notFoundHandler) && routes == old(routes)
      {
        var t := types.value[i];
        assert types.value[..i + 1][..i] == types.value[..i];
        parsers := parsers[t := p];
        if t !in parserKeys {
          parserKeys := parserKeys + [t];
        }
        i := i + 1;
      }
      assert types.value[..i] == types.value;
      BindAllLookup(parsers0, types.value, p);
      AddKeysOrder(keys0, types.value);
      return Pass;
    }

    /**
     * What `#getParser(method, contentType)` resolves to. Only `POST` and
     * `PUT` look for a parser; then the keys are tried in order, calling
     * `contentType.startsWith`, which throws for a non-string once there is
     * a key to try.
     */
    function ParserFor(verb: JsValue, contentType: JsValue): (r: Result<Option<Parser>, JsError>)
      requires Valid()
      reads this
      ensures r == Success(None) <==> verb != Str("POST") && verb != Str("PUT")
      ensures r.Success? && r.value.Some? ==>
                contentType.Str? &&
                exists i | 0 <= i < |parserKeys| ::
                  && StartsWith(contentType.s, parserKeys[i])
                  && r.value.value == parsers[parserKeys[i]]
                  && forall j | 0 <= j < i :: !StartsWith(contentType.s, parserKeys[j])
      ensures r == Failure(TypeError) <==>
                (verb == Str("POST") || verb == Str("PUT")) && parserKeys != [] && !contentType.Str?
      ensures r == Failure(Error(PARSER_MISSING)) <==>
                (verb == Str("POST") || verb == Str("PUT")) &&
                (parserKeys == [] ||
                 (contentType.Str? && forall j | 0 <= j < |parserKeys| :: !StartsWith(contentType.s, parserKeys[j])))
      ensures (verb == Str("POST") || verb == Str("PUT")) && contentType.Str? &&
              (exists i | 0 <= i < |parserKeys| :: StartsWith(contentType.s, parserKeys[i])) ==>
                r.Success? && r.value.Some?
      ensures r.Failure? ==> r.error == TypeError || r.error == Error(PARSER_MISSING)
    {
      if verb != Str("POST") && verb != Str("PUT") then Success(None)
      else if parserKeys == [] then Failure(Error(PARSER_MISSING))
      else if !contentType.Str? then Failure(TypeError)
      else
        match FirstPrefix(parserKeys, contentType.s)
        case None => Failure(Error(PARSER_MISSING))
        case Some(i) => Success(Some(parsers[parserKeys[i]]))
    }

    /** `#getParser(method, contentType)`: the loop over the parser keys. */
    method GetParser(verb: JsValue, contentType: JsValue) returns (r: Result<Option<Parser>, JsError>)
      requires Valid()
      ensures r == ParserFor(verb, contentType)
    {
      if verb != Str("POST") && verb != Str("PUT") {
        return Success(None);
      }
      var i := 0;
      while i < |parserKeys|
        invariant 0 <= i <= |parserKeys|
        invariant i > 0 ==> contentType.Str? && forall j | 0 <= j < i :: !StartsWith(contentType.s, parserKeys[j])
      {
        if !contentType.Str? {
          return Failure(TypeError);
        }
        if StartsWith(contentType.s, parserKeys[i]) {
          return Success(Some(parsers[parserKeys[i]]));
        }
        i := i + 1;
      }
      return Failure(Error(PARSER_MISSING));
    }

    /** `#getRoute(method, pathname)` for a method that has a list: the loop over its routes. */
    method GetRoute(verb: string, pathname: string) returns (r: Result<Route, JsError>)
      requires verb in routes
      ensures r == FirstRoute(routes[verb], pathname)
    {
      var rs := routes[verb];
      var i := 0;
      while i < |rs|
        invariant 0 <= i <= |rs|
        invariant FirstRoute(rs[i..], pathname) == FirstRoute(rs, pathname)
      {
        var m := Match(rs[i], Str(pathname));
        if m.Failure? {
          return Failure(m.error);
        }
        if m.value {
          return Success(rs[i]);
        }
        assert rs[i..][1..] == rs[i + 1..];
        i := i + 1;
      }
      return Failure(Error(ROUTE_MISSING));
    }

    /**
     * `navigate(req, res)` up to the `.then` callback. `pathname` is what
     * `URL.parse(req.url, true).pathname` gives for a string url, `None`
     * for its `null`. Whatever `navigate` throws rejects its promise; a
     * rejected lookup ends in the not-found handler.
     */
    function Resolve(req: JsValue, res: JsValue, pathname: Option<string>): (r: Resolution)
      requires Valid()
      reads this
      ensures !Truthy(req) ==> r == Settled(Rejected(Error(INVALID_REQUEST)))
      ensures Truthy(req) && !req.Object? ==> r == Settled(Rejected(TypeError))
      ensures req.Object? && !(HasProperty(req, "method") && HasProperty(req, "url") && HasProperty(req, "headers")) ==>
                r == Settled(Rejected(Error(INVALID_REQUEST)))
      ensures req.Object? && HasProperty(req, "method") && HasProperty(req, "url") && HasProperty(req, "headers") && !Truthy(res) ==>
                r == Settled(Rejected(Error(INVALID_RESPONSE)))
      ensures r.Settled? ==> !r.navigation.Dispatched?
    {
      if NotDefined(req, INVALID_REQUEST).Fail? then Settled(Rejected(Error(INVALID_REQUEST)))
      else if NotHave(req, "method", INVALID_REQUEST).Fail? then Settled(Rejected(NotHave(req, "method", INVALID_REQUEST).error))
      else if NotHave(req, "url", INVALID_REQUEST).Fail? then Settled(Rejected(NotHave(req, "url", INVALID_REQUEST).error))
      else if NotHave(req, "headers", INVALID_REQUEST).Fail? then Settled(Rejected(NotHave(req, "headers", INVALID_REQUEST).error))
      else if NotDefined(res, INVALID_RESPONSE).Fail? then Settled(Rejected(Error(INVALID_RESPONSE)))
      else Lookup(Get(req, "method"), Get(req, "url"), Get(req, "headers"), pathname)
    }

    /** The part of `navigate` after the checks: the method's list, the headers, the url, then both lookups. */
    function Lookup(verb: JsValue, url: JsValue, headers: JsValue, pathname: Option<string>): (r: Resolution)
      requires Valid()
      reads this
      ensures r.Settled? ==> !r.navigation.Dispatched?
    {
      if !(verb.Str? && (verb.s in routes || verb.s in OBJECT_PROTOTYPE_KEYS)) then Settled(NotFound)
      else if headers.Undefined? || headers.Null? then Settled(Rejected(TypeError))
      else
        var contentType := HeaderContentType(headers);
        if !url.Str? || pathname.None? then Settled(Rejected(TypeError))
        else
          var path := NormalizePath(pathname.value);
          if verb.s !in routes then Settled(NotFound)
          else
            var route := FirstRoute(routes[verb.s], path);
            var parser := ParserFor(verb, contentType);
            if route.Failure? || parser.Failure? then Settled(NotFound)
            else Resolved(route.value, path, parser.value)
    }

    /** The lookups reach a route exactly when every one of them succeeds, and then carry what they found. */
    lemma LookupResolved(verb: JsValue, url: JsValue, headers: JsValue, pathname: Option<string>)
      requires Valid()
      ensures Lookup(verb, url, headers, pathname).Resolved? <==>
                && verb.Str? && verb.s in routes && !headers.Undefined? && !headers.Null? && url.Str? && pathname.Some?
                && FirstRoute(routes[verb.s], NormalizePath(pathname.value)).Success?
                && ParserFor(verb, HeaderContentType(headers)).Success?
      ensures Lookup(verb, url, headers, pathname).Resolved? ==>
                var r := Lookup(verb, url, headers, pathname);
                && r.pathname == NormalizePath(pathname.value)
                && r.route == FirstRoute(routes[verb.s], r.pathname).value
                && r.parser == ParserFor(verb, HeaderContentType(headers)).value
    {
    }

    /**
     * A listed method, or one that names an `Object.prototype` member, goes on
     * to the headers and the url: `undefined` or `null` headers, a non-string
     * url or a missing pathname reject with a TypeError. Past those, a method
     * without a list of its own ends in the not-found handler.
     */
    lemma LookupRejects(verb: JsValue, url: JsValue, headers: JsValue, pathname: Option<string>)
      requires Valid()
      ensures verb.Str? && (verb.s in routes || verb.s in OBJECT_PROTOTYPE_KEYS) && (headers.Undefined? || headers.Null?) ==>
                Lookup(verb, url, headers, pathname) == Settled(Rejected(TypeError))
      ensures verb.Str? && (verb.s in routes || verb.s in OBJECT_PROTOTYPE_KEYS) && !headers.Undefined? && !headers.Null? &&
              (!url.Str? || pathname.None?) ==>
                Lookup(verb, url, headers, pathname) == Settled(Rejected(TypeError))
      ensures verb.Str? && verb.s !in routes && verb.s in OBJECT_PROTOTYPE_KEYS &&
              !headers.Undefined? && !headers.Null? && url.Str? && pathname.Some? ==>
                Lookup(verb, url, headers, pathname) == Settled(NotFound)
    {
    }

    /**
     * A navigation reaches a route exactly when the request passes every
     * check and both lookups succeed; it then carries the first route of the
     * method's list that accepts the path without its trailing slash.
     */
    lemma ResolvedExactly(req: JsValue, res: JsValue, pathname: Option<string>)
      requires Valid()
      ensures Resolve(req, res, pathname).Resolved? <==>
                && Admitted(req, res)
                && Get(req, "method").Str? && Get(req, "method").s in routes
                && !Get(req, "headers").Undefined? && !Get(req, "headers").Null?
                && Get(req, "url").Str? && pathname.Some?
                && FirstRoute(routes[Get(req, "method").s], NormalizePath(pathname.value)).Success?
                && ParserFor(Get(req, "method"), HeaderContentType(Get(req, "headers"))).Success?
      ensures Resolve(req, res, pathname).Resolved? ==>
                var r := Resolve(req, res, pathname);
                && r.pathname == NormalizePath(pathname.value)
                && r.route == FirstRoute(routes[Get(req, "method").s], r.pathname).value
                && r.parser == ParserFor(Get(req, "method"), HeaderContentType(Get(req, "headers"))).value
    {
      AdmittedChecks(req, res);
      if Admitted(req, res) {
        LookupResolved(Get(req, "method"), Get(req, "url"), Get(req, "headers"), pathname);
      }
    }

    /**
     * An admitted request whose method has no list, or whose route or
     * parser lookup rejects, ends in the not-found handler.
     */
    lemma LookupFailuresFallBack(req: JsValue, res: JsValue, pathname: Option<string>)
      requires Valid() && Admitted(req, res)
      ensures var verb := Get(req, "method");
              !(verb.Str? && (verb.s in routes || verb.s in OBJECT_PROTOTYPE_KEYS)) ==>
                Resolve(req, res, pathname) == Settled(NotFound)
      ensures var verb, headers := Get(req, "method"), Get(req, "headers");
              && verb.Str? && verb.s in routes && !headers.Undefined? && !headers.Null?
              && Get(req, "url").Str? && pathname.Some?
              && (FirstRoute(routes[verb.s], NormalizePath(pathname.value)).Failure? ||
                  ParserFor(verb, HeaderContentType(headers)).Failure?) ==>
                Resolve(req, res, pathname) == Settled(NotFound)
    {
      AdmittedChecks(req, res);
    }

    /** `navigate(req, res)`, with the `.then` callback as intended. */
    method Navigate(req: JsValue, res: JsValue, pathname: Option<string>) returns (n: Navigation)
      requires Valid()
      ensures n == Settle(Resolve(req, res, pathname))
    {
      var check := NotDefined(req, INVALID_REQUEST);
      if check.Fail? { return Rejected(check.error); }
      check := NotHave(req, "method", INVALID_REQUEST);
      if check.Fail? { return Rejected(check.error); }
      check := NotHave(req, "url", INVALID_REQUEST);
      if check.Fail? { return Rejected(check.error); }
      check := NotHave(req, "headers", INVALID_REQUEST);
      if check.Fail? { return Rejected(check.error); }
      check := NotDefined(res, INVALID_RESPONSE);
      if check.Fail? { return Rejected(check.error); }
      var verb := Get(req, "method");
      var url := Get(req, "url");
      if !(verb.Str? && (verb.s in routes || verb.s in OBJECT_PROTOTYPE_KEYS)) {
        return NotFound;
      }
      var headers := Get(req, "headers");
      if headers.Undefined? || headers.Null? {
        return Rejected(TypeError);
      }
      var contentType := HeaderContentType(headers);
      if !url.Str? || pathname.None? {
        return Rejected(TypeError);
      }
      var path := NormalizePath(pathname.value);
      if verb.s !in routes {
        return NotFound;
      }
      var route := GetRoute(verb.s, path);
      var parser := GetParser(verb, contentType);
      if route.Failure? || parser.Failure? {
        return NotFound;
      }
      return Dispatched(route.value, path, parser.value);
    }
  }
}
