/**
 * Route templates of the shapes the repository's scenarios use, worked
 * through the model: which urls their patterns accept and which parameter
 * values the greedy, backtracking match hands out. Each shape is proved for
 * all its instances, then applied to the concrete templates.
 */
module RouteScenarios {
  import opened Wrappers
  import opened JsValues
  import opened Strings
  import opened PathTemplate
  import opened PathMatcher
  import opened Routes

  /** `a:n1` + `d` + `:n2`, e.g. `/flights/:from-:to`. */
  function PairTemplate(a: string, n1: string, d: char, n2: string): string
  {
    a + [':'] + n1 + [d] + [':'] + n2
  }

  lemma PairTokens(a: string, n1: string, d: char, n2: string)
    requires ':' !in a && IsName(n1) && IsName(n2)
    requires !IsWordChar(d) && d != '?' && d != ':'
    ensures Tokenize(PairTemplate(a, n1, d, n2)) == Lits(a) + ([Req(n1)] + (Lits([d]) + [Req(n2)]))
  {
    var t3 := [':'] + n2;
    TokenizeRequired(n2, "");
    assert [':'] + n2 + "" == t3;
    assert Tokenize(t3) == [Req(n2)];
    var t2 := [d] + t3;
    TokenizePlain([d], t3);
    assert Tokenize(t2) == Lits([d]) + [Req(n2)];
    var t1 := [':'] + n1 + t2;
    TokenizeRequired(n1, t2);
    assert Tokenize(t1) == [Req(n1)] + (Lits([d]) + [Req(n2)]);
    TokenizePlain(a, t1);
    PairTemplateShape(a, n1, d, n2);
  }

  lemma PairTemplateShape(a: string, n1: string, d: char, n2: string)
    ensures PairTemplate(a, n1, d, n2) == a + ([':'] + n1 + ([d] + ([':'] + n2)))
  {
  }

  lemma PairPattern(a: string, n1: string, d: char, n2: string, handler: JsValue)
    requires ':' !in a && IsName(n1) && IsName(n2)
    requires !IsWordChar(d) && d != '?' && d != ':'
    ensures Pattern(Route(PairTemplate(a, n1, d, n2), handler)) == Chars(a) + [Plus, Char(d), Plus]
    ensures ParamNames(PairTemplate(a, n1, d, n2)) == [n1, n2]
  {
    PairTokens(a, n1, d, n2);
    PairCompiled(a, n1, d, n2);
    PairNames(a, n1, d, n2);
  }

  lemma PairCompiled(a: string, n1: string, d: char, n2: string)
    ensures Compile(Lits(a) + ([Req(n1)] + (Lits([d]) + [Req(n2)]))) == Chars(a) + [Plus, Char(d), Plus]
  {
    var tail := Lits([d]) + [Req(n2)];
    CompileRequiredHead(n2, []);
    CompileLits([d], [Req(n2)]);
    CompileRequiredHead(n1, tail);
    CompileLits(a, [Req(n1)] + tail);
  }

  lemma PairNames(a: string, n1: string, d: char, n2: string)
    ensures Names(Lits(a) + ([Req(n1)] + (Lits([d]) + [Req(n2)]))) == [n1, n2]
  {
    var tail := Lits([d]) + [Req(n2)];
    NamesOfParameter(Req(n2), []);
    NamesOfLits([d], [Req(n2)]);
    NamesOfParameter(Req(n1), tail);
    NamesOfLits(a, [Req(n1)] + tail);
  }

  lemma PairCaptures(d: char, x: string, y: string)
    ensures Captures([Plus, Char(d), Plus], [x, [d], y]) == [x, y]
  {
    var q := [Plus, Char(d), Plus];
    var qs := [x, [d], y];
    assert q[1..] == [Char(d), Plus] && qs[1..] == [[d], y];
    assert q[1..][1..] == [Plus] && qs[1..][1..] == [y];
    assert Captures([Plus], [y]) == [y];
  }

  /** `a:n1` + `d` + `:n2` on `a` + `x` + `d` + `y`, with `d` not in `y`: `n1` gets `x` even when it holds `d`s. */
  lemma PairParams(a: string, n1: string, d: char, n2: string, x: string, y: string, handler: JsValue)
    requires ':' !in a && IsName(n1) && IsName(n2)
    requires !IsWordChar(d) && d != '?' && d != ':' && d != '/'
    requires |x| > 0 && |y| > 0 && '/' !in x && '/' !in y && ':' !in x && d !in y
    ensures Match(Route(PairTemplate(a, n1, d, n2), handler), Str(a + x + [d] + y)) == Success(true)
    ensures Params(Route(PairTemplate(a, n1, d, n2), handler), a + x + [d] + y) == Success(map[n1 := x, n2 := y])
  {
    var path := PairTemplate(a, n1, d, n2);
    var route := Route(path, handler);
    var url := a + x + [d] + y;
    var q := [Plus, Char(d), Plus];
    var qs := [x, [d], y];
    PairPattern(a, n1, d, n2, handler);
    LastDelimiterSplit(d, x, y);
    assert url == a + (x + [d] + y);
    MatchesLiteralPrefix(a, q, x + [d] + y);
    assert Matches(Pattern(route), url) == Some(Singles(a) + qs);
    assert url != path by {
      assert url[|a|] == x[0] && path[|a|] == ':';
    }
    CapturesAppend(Chars(a), Singles(a), q, qs);
    CapturesOfLiterals(a);
    PairCaptures(d, x, y);
    assert GroupsOf(route, url) == [x, y];
    assert [n1, n2][..1] == [n1];
    assert Bind([n1], [x, y]) == map[n1 := x];
    assert Bind([n1, n2], [x, y]) == map[n1 := x][n2 := y];
  }

  /**
   * `/flights/:from-:to` on `/flights/TUR-SAW-ASC-5`: the greedy first group
   * takes everything up to the last `-`.
   */
  lemma FlightsGreedySplit(path: string, url: string, handler: JsValue)
    requires path == "/flights/:from-:to" && url == "/flights/TUR-SAW-ASC-5"
    ensures Match(Route(path, handler), Str(url)) == Success(true)
    ensures Params(Route(path, handler), url) == Success(map["from" := "TUR-SAW-ASC", "to" := "5"])
  {
    assert path == PairTemplate("/flights/", "from", '-', "to");
    assert url == "/flights/" + "TUR-SAW-ASC" + ['-'] + "5";
    PairParams("/flights/", "from", '-', "to", "TUR-SAW-ASC", "5", handler);
  }

  /** `a:n1` + `b` + `c:n2?`, e.g. `/users/:userId/posts/:postId?`. */
  function TailOptionalTemplate(a: string, n1: string, b: string, c: char, n2: string): string
  {
    a + ([':'] + n1 + (b + ([c] + ([':'] + n2 + ['?']))))
  }

  lemma TailOptionalTokens(a: string, n1: string, b: string, c: char, n2: string)
    requires ':' !in a && ':' !in b && c != ':' && IsName(n1) && IsName(n2)
    requires |b| > 0 && b[0] == '/'
    ensures Tokenize(TailOptionalTemplate(a, n1, b, c, n2)) == Lits(a) + ([Req(n1)] + (Lits(b) + [Lit(c), Opt(n2)]))
  {
    var t4 := [':'] + n2 + ['?'];
    TokenizeOptional(n2, "");
    assert t4 + "" == t4;
    assert Tokenize(t4) == [Opt(n2)];
    var t3 := [c] + t4;
    TokenizePlain([c], t4);
    assert Tokenize(t3) == [Lit(c), Opt(n2)];
    var t2 := b + t3;
    TokenizePlain(b, t3);
    assert Tokenize(t2) == Lits(b) + [Lit(c), Opt(n2)];
    var t1 := [':'] + n1 + t2;
    TokenizeRequired(n1, t2);
    assert Tokenize(t1) == [Req(n1)] + (Lits(b) + [Lit(c), Opt(n2)]);
    TokenizePlain(a, t1);
  }

  lemma TailOptionalPattern(a: string, n1: string, b: string, c: char, n2: string, handler: JsValue)
    requires ':' !in a && ':' !in b && c != ':' && IsName(n1) && IsName(n2)
    requires |b| > 0 && b[0] == '/'
    ensures Pattern(Route(TailOptionalTemplate(a, n1, b, c, n2), handler)) ==
      Chars(a) + ([Plus] + (Chars(b) + [OptChar(c), Star]))
    ensures ParamNames(TailOptionalTemplate(a, n1, b, c, n2)) == [n1, n2]
  {
    TailOptionalTokens(a, n1, b, c, n2);
    TailOptionalCompiled(a, n1, b, c, n2);
    TailOptionalNames(a, n1, b, c, n2);
  }

  lemma TailOptionalCompiled(a: string, n1: string, b: string, c: char, n2: string)
    ensures Compile(Lits(a) + ([Req(n1)] + (Lits(b) + [Lit(c), Opt(n2)]))) ==
      Chars(a) + ([Plus] + (Chars(b) + [OptChar(c), Star]))
  {
    var tail := Lits(b) + [Lit(c), Opt(n2)];
    CompileOptionalAfter(c, n2, []);
    assert [Lit(c), Opt(n2)] + [] == [Lit(c), Opt(n2)];
    CompileLits(b, [Lit(c), Opt(n2)]);
    CompileRequiredHead(n1, tail);
    CompileLits(a, [Req(n1)] + tail);
  }

  lemma TailOptionalNames(a: string, n1: string, b: string, c: char, n2: string)
    ensures Names(Lits(a) + ([Req(n1)] + (Lits(b) + [Lit(c), Opt(n2)]))) == [n1, n2]
  {
    var tail := Lits(b) + [Lit(c), Opt(n2)];
    NamesOfParameter(Opt(n2), []);
    assert Names([Lit(c), Opt(n2)]) == [n2] by {
      assert [Lit(c), Opt(n2)][1..] == [Opt(n2)];
      assert [Opt(n2)] + [] == [Opt(n2)];
    }
    NamesOfLits(b, [Lit(c), Opt(n2)]);
    NamesOfParameter(Req(n1), tail);
    NamesOfLits(a, [Req(n1)] + tail);
  }

  /** The end of the path against `c?([^/]*)`: absent gives two empty pieces, `c` + `v` gives `c` and `v`. */
  lemma OptionalEnd(c: char, u: string, v: string)
    requires (u == [] && v == []) || (u == [c] + v && '/' !in v)
    ensures Matches([OptChar(c), Star], u) == Some(if u == [] then ["", ""] else [[c], v])
  {
    assert Matches([], "") == Some([]);
    if u == [] {
      StarTakesSegment([], "", "");
      assert [Star] + [] == [Star] && [""] + [] == [""];
      assert Matches([Star], "") == Some([""]);
      OptCharSkipped(c, [Star], "");
      assert [OptChar(c)] + [Star] == [OptChar(c), Star];
      assert [""] + [""] == ["", ""];
    } else {
      StarTakesSegment([], v, "");
      assert [Star] + [] == [Star] && v + "" == v && [v] + [] == [v];
      assert Matches([Star], v) == Some([v]);
      OptCharTaken(c, [Star], v);
      assert [OptChar(c)] + [Star] == [OptChar(c), Star];
      assert [[c]] + [v] == [[c], v];
    }
  }

  lemma OptionalEndCaptures(c: char, p: string, v: string)
    ensures Captures([OptChar(c), Star], [p, v]) == [v]
  {
    assert [OptChar(c), Star][1..] == [Star] && [p, v][1..] == [v];
  }

  /** The match of `a([^/]+)b c?([^/]*)` cuts the path into the literals, `x`, and the optional tail. */
  lemma TailOptionalMatch(a: string, x: string, b: string, c: char, u: string, v: string)
    requires |b| > 0 && b[0] == '/'
    requires |x| > 0 && '/' !in x
    requires (u == [] && v == []) || (u == [c] + v && '/' !in v)
    ensures var tp := if u == [] then ["", ""] else [[c], v];
      Matches(Chars(a) + ([Plus] + (Chars(b) + [OptChar(c), Star])), a + x + b + u) ==
        Some(Singles(a) + ([x] + (Singles(b) + tp)))
  {
    var tp := if u == [] then ["", ""] else [[c], v];
    TailOptionalRest(b, c, u, v);
    LiteralThenSegment(a, x, Chars(b) + [OptChar(c), Star], b + u, Singles(b) + tp);
    assert a + x + b + u == a + x + (b + u);
  }

  /** A literal prefix, then one segment `x`, then whatever `rest` matches. */
  lemma LiteralThenSegment(a: string, x: string, rest: seq<Atom>, t: string, caps: seq<string>)
    requires |x| > 0 && '/' !in x
    requires t == [] || t[0] == '/'
    requires Matches(rest, t) == Some(caps)
    ensures Matches(Chars(a) + ([Plus] + rest), a + x + t) == Some(Singles(a) + ([x] + caps))
  {
    PlusTakesSegment(rest, x, t);
    MatchesLiteralPrefix(a, [Plus] + rest, x + t);
    assert a + x + t == a + (x + t);
  }

  lemma TailOptionalRest(b: string, c: char, u: string, v: string)
    requires (u == [] && v == []) || (u == [c] + v && '/' !in v)
    ensures var tp := if u == [] then ["", ""] else [[c], v];
      Matches(Chars(b) + [OptChar(c), Star], b + u) == Some(Singles(b) + tp)
  {
    OptionalEnd(c, u, v);
    MatchesLiteralPrefix(b, [OptChar(c), Star], u);
  }

  lemma TailOptionalCaptures(a: string, x: string, b: string, c: char, p: string, v: string)
    ensures Captures(Chars(a) + ([Plus] + (Chars(b) + [OptChar(c), Star])), Singles(a) + ([x] + (Singles(b) + [p, v]))) == [x, v]
  {
    var rest := Chars(b) + [OptChar(c), Star];
    CapturesAppend(Chars(a), Singles(a), [Plus] + rest, [x] + (Singles(b) + [p, v]));
    CapturesOfLiterals(a);
    assert ([Plus] + rest)[1..] == rest && ([x] + (Singles(b) + [p, v]))[1..] == Singles(b) + [p, v];
    CapturesAppend(Chars(b), Singles(b), [OptChar(c), Star], [p, v]);
    CapturesOfLiterals(b);
    OptionalEndCaptures(c, p, v);
  }

  /**
   * `a:n1` + `b` + `c:n2?` on `a` + `x` + `b`, optionally followed by `c` + `v`:
   * `n1` gets the segment `x` and `n2` gets `v`, or `""` when the tail is absent.
   */
  lemma TailOptionalParams(a: string, n1: string, b: string, c: char, n2: string,
                           x: string, u: string, v: string, handler: JsValue)
    requires ':' !in a && ':' !in b && c != ':' && IsName(n1) && IsName(n2)
    requires |b| > 0 && b[0] == '/'
    requires |x| > 0 && '/' !in x && ':' !in x
    requires (u == [] && v == []) || (u == [c] + v && '/' !in v)
    ensures Match(Route(TailOptionalTemplate(a, n1, b, c, n2), handler), Str(a + x + b + u)) == Success(true)
    ensures Params(Route(TailOptionalTemplate(a, n1, b, c, n2), handler), a + x + b + u) ==
      Success(map[n1 := x, n2 := v])
  {
    var path := TailOptionalTemplate(a, n1, b, c, n2);
    var route := Route(path, handler);
    var url := a + x + b + u;
    var tp := if u == [] then ["", ""] else [[c], v];
    TailOptionalPattern(a, n1, b, c, n2, handler);
    TailOptionalMatch(a, x, b, c, u, v);
    assert url != path by {
      assert url[|a|] == x[0] && path[|a|] == ':';
    }
    assert tp == [tp[0], v];
    TailOptionalCaptures(a, x, b, c, tp[0], v);
    assert GroupsOf(route, url) == [x, v];
    assert [n1, n2][..1] == [n1];
    assert Bind([n1], [x, v]) == map[n1 := x];
    assert Bind([n1, n2], [x, v]) == map[n1 := x][n2 := v];
  }

  /** `/users/:userId/posts/:postId?` on a url with the optional segment. */
  lemma OptionalParameterPresent(path: string, url: string, handler: JsValue)
    requires path == "/users/:userId/posts/:postId?" && url == "/users/123/posts/456"
    ensures Match(Route(path, handler), Str(url)) == Success(true)
    ensures Params(Route(path, handler), url) == Success(map["userId" := "123", "postId" := "456"])
  {
    var u := "/456";
    assert u == ['/'] + "456";
    UsersPostsTemplate();
    assert url == "/users/" + "123" + "/posts" + u;
    TailOptionalParams("/users/", "userId", "/posts", '/', "postId", "123", u, "456", handler);
  }

  /** `/users/:userId/posts/:postId?` on a url without the optional segment: the parameter is `""`. */
  lemma OptionalParameterAbsent(path: string, url: string, handler: JsValue)
    requires path == "/users/:userId/posts/:postId?" && url == "/users/123/posts"
    ensures Match(Route(path, handler), Str(url)) == Success(true)
    ensures Params(Route(path, handler), url) == Success(map["userId" := "123", "postId" := ""])
  {
    UsersPostsTemplate();
    assert url == "/users/" + "123" + "/posts" + "";
    TailOptionalParams("/users/", "userId", "/posts", '/', "postId", "123", "", "", handler);
  }

  lemma UsersPostsTemplate()
    ensures "/users/:userId/posts/:postId?" == TailOptionalTemplate("/users/", "userId", "/posts", '/', "postId")
    ensures IsName("userId") && IsName("postId")
  {
  }

  /** `a` + `c1:n1?` + `c2:n2?`, e.g. `/users/:userId?-:orderBy?`. */
  function TwoOptionalTemplate(a: string, c1: char, n1: string, c2: char, n2: string): string
  {
    a + ([c1] + ([':'] + n1 + ['?'] + ([c2] + ([':'] + n2 + ['?']))))
  }

  lemma TwoOptionalTokens(a: string, c1: char, n1: string, c2: char, n2: string)
    requires ':' !in a && c1 != ':' && c2 != ':' && IsName(n1) && IsName(n2)
    ensures Tokenize(TwoOptionalTemplate(a, c1, n1, c2, n2)) == Lits(a) + [Lit(c1), Opt(n1), Lit(c2), Opt(n2)]
  {
    var t2 := [':'] + n1 + ['?'] + ([c2] + ([':'] + n2 + ['?']));
    OptionalPairTokens(n1, c2, n2);
    var t1 := [c1] + t2;
    TokenizePlain([c1], t2);
    assert Tokenize(t1) == [Lit(c1)] + ([Opt(n1)] + [Lit(c2), Opt(n2)]);
    assert [Lit(c1)] + ([Opt(n1)] + [Lit(c2), Opt(n2)]) == [Lit(c1), Opt(n1), Lit(c2), Opt(n2)];
    TokenizePlain(a, t1);
  }

  /** `:n1?` + `c2:n2?` gives two optional parameters around one literal. */
  lemma OptionalPairTokens(n1: string, c2: char, n2: string)
    requires c2 != ':' && IsName(n1) && IsName(n2)
    ensures Tokenize([':'] + n1 + ['?'] + ([c2] + ([':'] + n2 + ['?']))) == [Opt(n1)] + [Lit(c2), Opt(n2)]
  {
    var t4 := [':'] + n2 + ['?'];
    TokenizeOptional(n2, "");
    assert t4 + "" == t4;
    var t3 := [c2] + t4;
    TokenizePlain([c2], t4);
    assert Tokenize(t3) == [Lit(c2), Opt(n2)];
    TokenizeOptional(n1, t3);
  }

  lemma TwoOptionalPattern(a: string, c1: char, n1: string, c2: char, n2: string, handler: JsValue)
    requires ':' !in a && c1 != ':' && c2 != ':' && IsName(n1) && IsName(n2)
    ensures Pattern(Route(TwoOptionalTemplate(a, c1, n1, c2, n2), handler)) ==
      Chars(a) + [OptChar(c1), Star, OptChar(c2), Star]
    ensures ParamNames(TwoOptionalTemplate(a, c1, n1, c2, n2)) == [n1, n2]
  {
    TwoOptionalTokens(a, c1, n1, c2, n2);
    var ts := [Lit(c1), Opt(n1), Lit(c2), Opt(n2)];
    TwoOptionalCompiled(c1, n1, c2, n2);
    CompileLits(a, ts);
    TwoOptionalNames(c1, n1, c2, n2);
    NamesOfLits(a, ts);
  }

  lemma TwoOptionalCompiled(c1: char, n1: string, c2: char, n2: string)
    ensures Compile([Lit(c1), Opt(n1), Lit(c2), Opt(n2)]) == [OptChar(c1), Star, OptChar(c2), Star]
  {
    CompileOptionalAfter(c2, n2, []);
    assert [Lit(c2), Opt(n2)] + [] == [Lit(c2), Opt(n2)];
    CompileOptionalAfter(c1, n1, [Lit(c2), Opt(n2)]);
    assert [Lit(c1), Opt(n1)] + [Lit(c2), Opt(n2)] == [Lit(c1), Opt(n1), Lit(c2), Opt(n2)];
  }

  lemma TwoOptionalNames(c1: char, n1: string, c2: char, n2: string)
    ensures Names([Lit(c1), Opt(n1), Lit(c2), Opt(n2)]) == [n1, n2]
  {
    var ts := [Lit(c1), Opt(n1), Lit(c2), Opt(n2)];
    NamesOfParameter(Opt(n2), []);
    assert [Opt(n2)] + [] == [Opt(n2)];
    assert [Lit(c2), Opt(n2)][1..] == [Opt(n2)];
    NamesOfParameter(Opt(n1), [Lit(c2), Opt(n2)]);
    assert [Opt(n1)] + [Lit(c2), Opt(n2)] == ts[1..];
  }

  /** `c1?([^/]*)c2?([^/]*)` at the end of the path, with at most `c1` left to match. */
  lemma TwoOptionalEnd(c1: char, c2: char, u: string)
    requires u == [] || u == [c1]
    ensures Matches([OptChar(c1), Star, OptChar(c2), Star], u) == Some([u, "", "", ""])
  {
    var q2 := [OptChar(c2), Star];
    OptionalEnd(c2, [], []);
    StarTakesSegment(q2, "", "");
    assert Matches([Star] + q2, "") == Some([""] + ["", ""]);
    assert [OptChar(c1)] + ([Star] + q2) == [OptChar(c1), Star, OptChar(c2), Star];
    if u == [] {
      OptCharSkipped(c1, [Star] + q2, "");
      assert [""] + ([""] + ["", ""]) == [u, "", "", ""];
    } else {
      OptCharTaken(c1, [Star] + q2, "");
      assert [c1] + "" == u;
      assert [[c1]] + ([""] + ["", ""]) == [u, "", "", ""];
    }
  }

  /**
   * `a` + `c1:n1?` + `c2:n2?` on `a`, or on `a` + `c1`: both parameters are
   * present with the value `""`.
   */
  lemma TwoOptionalAbsent(a: string, c1: char, n1: string, c2: char, n2: string, u: string, handler: JsValue)
    requires ':' !in a && c1 != ':' && c2 != ':' && IsName(n1) && IsName(n2)
    requires |a| > 0 && (u == [] || u == [c1])
    ensures Match(Route(TwoOptionalTemplate(a, c1, n1, c2, n2), handler), Str(a + u)) == Success(true)
    ensures Params(Route(TwoOptionalTemplate(a, c1, n1, c2, n2), handler), a + u) == Success(map[n1 := "", n2 := ""])
  {
    var path := TwoOptionalTemplate(a, c1, n1, c2, n2);
    var route := Route(path, handler);
    var q := [OptChar(c1), Star, OptChar(c2), Star];
    TwoOptionalPattern(a, c1, n1, c2, n2, handler);
    TwoOptionalEnd(c1, c2, u);
    MatchesLiteralPrefix(a, q, u);
    assert |path| > |a + u|;
    CapturesAppend(Chars(a), Singles(a), q, [u, "", "", ""]);
    CapturesOfLiterals(a);
    TwoOptionalCapturesAny(c1, c2, u);
    assert GroupsOf(route, a + u) == ["", ""];
    assert [n1, n2][..1] == [n1];
    assert Bind([n1], ["", ""]) == map[n1 := ""];
    assert Bind([n1, n2], ["", ""]) == map[n1 := ""][n2 := ""];
  }

  lemma TwoOptionalCapturesAny(c1: char, c2: char, p: string)
    ensures Captures([OptChar(c1), Star, OptChar(c2), Star], [p, "", "", ""]) == ["", ""]
  {
    assert Captures([Star], [""]) == [""];
    assert [OptChar(c2), Star][1..] == [Star] && ["", ""][1..] == [""];
    assert Captures([OptChar(c2), Star], ["", ""]) == [""];
    assert [Star, OptChar(c2), Star][1..] == [OptChar(c2), Star] && ["", "", ""][1..] == ["", ""];
    assert Captures([Star, OptChar(c2), Star], ["", "", ""]) == ["", ""];
    assert [OptChar(c1), Star, OptChar(c2), Star][1..] == [Star, OptChar(c2), Star];
    assert [p, "", "", ""][1..] == ["", "", ""];
  }

  /** `/users/:userId?-:orderBy?` on `/users`: both values are `""`. */
  lemma TwoOptionalAroundDash(path: string, url: string, handler: JsValue)
    requires path == "/users/:userId?-:orderBy?" && url == "/users"
    ensures Match(Route(path, handler), Str(url)) == Success(true)
    ensures Params(Route(path, handler), url) == Success(map["userId" := "", "orderBy" := ""])
  {
    UsersDashTemplate();
    assert url == "/users" + [];
    TwoOptionalAbsent("/users", '/', "userId", '-', "orderBy", [], handler);
  }

  lemma UsersDashTemplate()
    ensures "/users/:userId?-:orderBy?" == TwoOptionalTemplate("/users", '/', "userId", '-', "orderBy")
    ensures IsName("userId") && IsName("orderBy")
  {
  }

  /** `/users/:userId?/:orderBy?` on `/users`: both slashes are skipped, both values are `""`. */
  lemma TwoOptionalAfterSlash(path: string, url: string, handler: JsValue)
    requires path == "/users/:userId?/:orderBy?" && url == "/users"
    ensures Match(Route(path, handler), Str(url)) == Success(true)
    ensures Params(Route(path, handler), url) == Success(map["userId" := "", "orderBy" := ""])
  {
    UsersSlashTemplate();
    assert url == "/users" + [];
    TwoOptionalAbsent("/users", '/', "userId", '/', "orderBy", [], handler);
  }

  lemma UsersSlashTemplate()
    ensures "/users/:userId?/:orderBy?" == TwoOptionalTemplate("/users", '/', "userId", '/', "orderBy")
    ensures IsName("userId") && IsName("orderBy")
  {
  }
}
