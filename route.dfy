/**
 * route.js: a Route pairs a path template with its handler, tests candidate
 * paths against the template's pattern and extracts the parameter values.
 */
module Routes {
  import opened Wrappers
  import opened JsValues
  import opened Throws
  import opened Strings
  import opened PathTemplate
  import opened PathMatcher

  /** A constructed route: its template and its handler function. */
  datatype Route = Route(path: string, handler: JsValue)

  /** The text between `^` and `$` of the route's pattern: both `replace` passes applied. */
  function PatternSource(path: string): string
  {
    ReplaceRequired(ReplaceOptional(path))
  }

  /** The atoms of `patternRegEx`. */
  function Pattern(route: Route): seq<Atom>
  {
    Compile(Tokenize(route.path))
  }

  /** `new RegExp` refuses a quantifier right after `^`: there is nothing to repeat. */
  predicate NothingToRepeat(path: string)
  {
    var src := PatternSource(path);
    |src| > 0 && src[0] in "?*+"
  }

  /**
   * `new Route(path, handler)`: the path must be a non-empty string and the
   * handler a function, checked in that order; building the pattern can still
   * throw when the rewritten template starts with a quantifier.
   */
  function NewRoute(path: JsValue, handler: JsValue): (r: Result<Route, JsError>)
    ensures r.Success? <==> path.Str? && |path.s| > 0 && IsFunction(handler) && !NothingToRepeat(path.s)
    ensures !(path.Str? && |path.s| > 0) ==> r == Failure(Error("Invalid path."))
    ensures path.Str? && |path.s| > 0 && !IsFunction(handler) ==> r == Failure(Error("Invalid handler."))
    ensures path.Str? && |path.s| > 0 && IsFunction(handler) && NothingToRepeat(path.s) ==> r == Failure(SyntaxError)
    ensures r.Success? ==> r.value == Route(path.s, handler)
  {
    if NotString(path, "Invalid path.").Fail? then Failure(NotString(path, "Invalid path.").error)
    else if EmptyString(path, "Invalid path.").Fail? then Failure(EmptyString(path, "Invalid path.").error)
    else if NotFunction(handler, "Invalid handler.").Fail? then Failure(NotFunction(handler, "Invalid handler.").error)
    else if NothingToRepeat(path.s) then Failure(SyntaxError)
    else Success(Route(path.s, handler))
  }

  /** A template that starts with an optional parameter cannot become a route. */
  lemma LeadingOptionalRejected(path: string, handler: JsValue)
    requires OptionalAt(path) && IsFunction(handler)
    ensures NewRoute(Str(path), handler) == Failure(SyntaxError)
  {
    ReplaceChainIsRender(path);
    assert Tokenize(path)[0].Opt?;
    assert Render(Tokenize(path)) == OPTIONAL_GROUP + Render(Tokenize(path)[1..]);
    assert PatternSource(path)[0] == '?';
  }

  /**
   * `route.match(url)`: a non-empty string url is required; a url that still
   * holds a `:name` token and equals the template is refused outright;
   * otherwise the anchored pattern decides.
   */
  function Match(route: Route, url: JsValue): (r: Result<bool, JsError>)
    ensures !(url.Str? && |url.s| > 0) ==> r == Failure(Error("Invalid url."))
    ensures url.Str? && |url.s| > 0 ==> r.Success?
    ensures url.Str? && ContainsParameter(url.s) && url.s == route.path ==> r == Success(false)
  {
    if NotString(url, "Invalid url.").Fail? then Failure(NotString(url, "Invalid url.").error)
    else if EmptyString(url, "Invalid url.").Fail? then Failure(EmptyString(url, "Invalid url.").error)
    else if ContainsParameter(url.s) && url.s == route.path then Success(false)
    else Success(Matches(Pattern(route), url.s).Some?)
  }

  /** A url matches exactly when it is not the verbatim template and some cut of it fits the pattern. */
  lemma MatchIffFits(route: Route, url: string)
    ensures Match(route, Str(url)) == Success(true) <==>
      |url| > 0 && !(ContainsParameter(url) && url == route.path) &&
      exists ps :: Fits(Pattern(route), ps, url)
  {
    if Matches(Pattern(route), url).Some? {
      MatchesSound(Pattern(route), url);
    }
    if ps :| Fits(Pattern(route), ps, url) {
      MatchesGreediest(Pattern(route), url, ps);
    }
  }

  /**
   * The anchored pattern of a template without parameters, whose characters
   * have no regex meaning, accepts that template and nothing else.
   */
  lemma ParameterlessMatchesOnlyItself(route: Route, url: string)
    requires ParamTokens(route.path) == [] && Supported(route.path)
    ensures Match(route, Str(url)) == Success(true) <==> url == route.path && |url| > 0
  {
    TokenizeWithoutParameters(route.path);
    CompileLits(route.path, []);
    assert Lits(route.path) + [] == Lits(route.path);
    assert Pattern(route) == Chars(route.path);
    MatchesLiteralsOnly(route.path, url);
  }

  /** The names of `path.match(/:\w+/g)`, each with its colon removed by `substring(1)`. */
  function ParamNames(path: string): (names: seq<string>)
    ensures names == Names(Tokenize(path))
  {
    ParamTokensAreNames(path);
    seq(|ParamTokens(path)|, i requires 0 <= i < |ParamTokens(path)| => ParamTokens(path)[i][1..])
  }

  /** Assigning `params[names[d]] = caps[d]` for `d = 0, 1, ...`: a later name overwrites an earlier one. */
  function Bind(names: seq<string>, caps: seq<string>): (m: map<string, string>)
    requires |names| <= |caps|
  {
    if names == [] then map[] else Bind(names[..|names| - 1], caps)[names[|names| - 1] := caps[|names| - 1]]
  }

  /** The keys are the names; each name holds the capture of its last occurrence. */
  lemma {:induction false} BindLookup(names: seq<string>, caps: seq<string>)
    requires |names| <= |caps|
    ensures forall k :: k in Bind(names, caps) <==> k in names
    ensures forall i | 0 <= i < |names| && names[i] !in names[i + 1..] :: Bind(names, caps)[names[i]] == caps[i]
  {
    if names != [] {
      var n := |names| - 1;
      var init := names[..n];
      BindLookup(init, caps);
      forall k ensures k in Bind(names, caps) <==> k in names {
        assert names == init + [names[n]];
      }
      forall i | 0 <= i < |names| && names[i] !in names[i + 1..]
        ensures Bind(names, caps)[names[i]] == caps[i]
      {
        if i < n {
          assert names[n] in names[i + 1..];
          assert init[i + 1..] == names[i + 1..n];
          assert init[i] == names[i];
        }
      }
    }
  }

  /** Every value bound is one of the captures. */
  lemma {:induction false} BindValues(names: seq<string>, caps: seq<string>)
    requires |names| <= |caps|
    ensures forall k | k in Bind(names, caps) :: exists i | 0 <= i < |names| :: Bind(names, caps)[k] == caps[i]
  {
    if names != [] {
      var n := |names| - 1;
      BindValues(names[..n], caps);
    }
  }

  /** The capture groups of a url the route's pattern accepts, one per parameter name. */
  function GroupsOf(route: Route, url: string): (caps: seq<string>)
    requires Matches(Pattern(route), url).Some?
    ensures |caps| == |ParamNames(route.path)|
  {
    MatchesSound(Pattern(route), url);
    GroupsMatchNames(Tokenize(route.path));
    Captures(Pattern(route), Matches(Pattern(route), url).value)
  }

  /** What `route.getParams(url)` returns for a string url. */
  function Params(route: Route, url: string): Result<map<string, string>, JsError>
  {
    if Matches(Pattern(route), url).None? then
      if ParamTokens(route.path) == [] then Success(map[]) else Failure(TypeError)
    else Success(Bind(ParamNames(route.path), GroupsOf(route, url)))
  }

  /**
   * `route.getParams(url)`: the d-th `:name` of the template receives capture
   * group d + 1. When the pattern rejects the url, reading a group of the
   * `null` match throws, unless the template has no parameter to read.
   */
  method GetParams(route: Route, url: JsValue) returns (r: Result<map<string, string>, JsError>)
    ensures !(url.Str? && |url.s| > 0) ==> r == Failure(Error("Invalid url."))
    ensures url.Str? && |url.s| > 0 ==> r == Params(route, url.s)
  {
    if NotString(url, "Invalid url.").Fail? || EmptyString(url, "Invalid url.").Fail? {
      return Failure(Error("Invalid url."));
    }
    var m := Matches(Pattern(route), url.s);
    var e := ParamTokens(route.path);
    var names := ParamNames(route.path);
    ParamTokensAreNames(route.path);
    var caps: seq<string> := [];
    if m.Some? {
      caps := GroupsOf(route, url.s);
    }
    var params: map<string, string> := map[];
    var d := 0;
    while d < |e|
      invariant 0 <= d <= |e|
      invariant m.Some? ==> |caps| == |e|
      invariant m.None? ==> d == 0
      invariant params == Bind(names[..d], caps)
    {
      if m.None? {
        return Failure(TypeError);
      }
      var c := e[d][1..];
      params := params[c := caps[d]];
      assert names[..d + 1][..d] == names[..d];
      d := d + 1;
    }
    assert names[..d] == names;
    return Success(params);
  }

  /** A template without parameters gives no parameters, whatever the url. */
  lemma ParameterlessParams(route: Route, url: string)
    requires ParamTokens(route.path) == []
    ensures Params(route, url) == Success(map[])
  {
    if Matches(Pattern(route), url).Some? {
      assert ParamNames(route.path) == [];
    }
  }

  /** When the pattern accepts the url, each parameter name is bound, to the capture of its group. */
  lemma ParamsOfMatch(route: Route, url: string)
    requires Matches(Pattern(route), url).Some?
    ensures Params(route, url).Success?
    ensures forall k :: k in Params(route, url).value <==> k in Names(Tokenize(route.path))
    ensures var names := Names(Tokenize(route.path));
      forall i | 0 <= i < |names| && names[i] !in names[i + 1..] ::
        Params(route, url).value[names[i]] == GroupsOf(route, url)[i]
  {
    BindLookup(ParamNames(route.path), GroupsOf(route, url));
  }

  /** Captured values never contain `/`, and are non-empty when the template has no optional token. */
  lemma {:induction false} CapturesShape(p: seq<Atom>, ps: seq<string>, s: string)
    requires Fits(p, ps, s)
    ensures forall i | 0 <= i < |Captures(p, ps)| :: '/' !in Captures(p, ps)[i]
    ensures (forall j | 0 <= j < |p| :: !p[j].Star?) ==> forall i | 0 <= i < |Captures(p, ps)| :: Captures(p, ps)[i] != ""
  {
    if p != [] {
      FitsUnfold(p, ps, s);
      CapturesShape(p[1..], ps[1..], s[|ps[0]|..]);
      if forall j | 0 <= j < |p| :: !p[j].Star? {
        assert forall j | 0 <= j < |p[1..]| :: !p[1..][j].Star? by {
          forall j | 0 <= j < |p[1..]| ensures !p[1..][j].Star? {
            assert p[1..][j] == p[j + 1];
          }
        }
      }
    }
  }

  /** Only an optional token lowers to `([^/]*)`. */
  lemma {:induction false} NoStarWithoutOptional(ts: seq<Token>)
    requires forall i | 0 <= i < |ts| :: !ts[i].Opt?
    ensures forall j | 0 <= j < |Compile(ts)| :: !Compile(ts)[j].Star?
  {
    if ts != [] {
      assert forall i | 0 <= i < |ts[1..]| :: !ts[1..][i].Opt? by {
        forall i | 0 <= i < |ts[1..]| ensures !ts[1..][i].Opt? {
          assert ts[1..][i] == ts[i + 1];
        }
      }
      NoStarWithoutOptional(ts[1..]);
    }
  }

  /**
   * A parameter value never spans a `/`; with only required parameters every
   * value of a matched url is non-empty.
   */
  lemma ParamValuesShape(route: Route, url: string)
    requires Matches(Pattern(route), url).Some?
    ensures Params(route, url).Success?
    ensures forall k | k in Params(route, url).value :: '/' !in Params(route, url).value[k]
    ensures (forall i | 0 <= i < |Tokenize(route.path)| :: !Tokenize(route.path)[i].Opt?) ==>
      forall k | k in Params(route, url).value :: Params(route, url).value[k] != ""
  {
    var p := Pattern(route);
    MatchesSound(p, url);
    var ps := Matches(p, url).value;
    CapturesShape(p, ps, url);
    BindValues(ParamNames(route.path), GroupsOf(route, url));
    if forall i | 0 <= i < |Tokenize(route.path)| :: !Tokenize(route.path)[i].Opt? {
      NoStarWithoutOptional(Tokenize(route.path));
    }
  }
}
