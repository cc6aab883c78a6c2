/**
 * Route templates such as `/users/:userId/posts/:postId?` (route.js).
 *
 * The Route constructor builds its pattern with two global replacements:
 * first every `:name?` becomes `?([^/]*)`, then every remaining `:name`
 * becomes `([^/]+)`. Both passes are modelled as the left-to-right scans that
 * `String.prototype.replace` performs with a global regular expression, and
 * are shown to agree with a one-pass tokenizer into literal characters,
 * required parameters and optional parameters. The tokens are then lowered to
 * the atoms of the resulting pattern, which PathMatcher interprets.
 */
module PathTemplate {
  import opened Strings

  datatype Token = Lit(c: char) | Req(name: string) | Opt(name: string)

  const REQUIRED_GROUP: string := "([^/]+)"
  const OPTIONAL_GROUP: string := "?([^/]*)"

  /** A parameter name: a non-empty run of `\w` characters. */
  predicate IsName(w: string)
  {
    |w| > 0 && forall i | 0 <= i < |w| :: IsWordChar(w[i])
  }

  /** `/:\w+/` matches at the front of `s`; the name is the maximal word run after the colon. */
  predicate RequiredAt(s: string)
  {
    |s| > 0 && s[0] == ':' && WordRun(s[1..]) > 0
  }

  /**
   * `/:\w+\?/` matches at the front of `s`. Backtracking into `\w+` cannot help:
   * a shorter run is followed by a word character, not by `?`.
   */
  predicate OptionalAt(s: string)
  {
    RequiredAt(s) && 1 + WordRun(s[1..]) < |s| && s[1 + WordRun(s[1..])] == '?'
  }

  /** `s.replace(/:\w+\?/g, "?([^/]*)")` */
  function ReplaceOptional(s: string): string
    decreases |s|
  {
    if |s| == 0 then ""
    else if OptionalAt(s) then OPTIONAL_GROUP + ReplaceOptional(s[2 + WordRun(s[1..])..])
    else [s[0]] + ReplaceOptional(s[1..])
  }

  /** `s.replace(/:\w+/g, "([^/]+)")` */
  function ReplaceRequired(s: string): string
    decreases |s|
  {
    if |s| == 0 then ""
    else if RequiredAt(s) then REQUIRED_GROUP + ReplaceRequired(s[1 + WordRun(s[1..])..])
    else [s[0]] + ReplaceRequired(s[1..])
  }

  /** `s.match(/:\w+/g) || []`: every `:name` token of `s`, colon included, left to right. */
  function ParamTokens(s: string): seq<string>
    decreases |s|
  {
    if |s| == 0 then []
    else if RequiredAt(s) then [s[..1 + WordRun(s[1..])]] + ParamTokens(s[1 + WordRun(s[1..])..])
    else ParamTokens(s[1..])
  }

  /** The template read as literal characters, `:name` and `:name?` tokens. */
  function Tokenize(s: string): seq<Token>
    decreases |s|
  {
    if |s| == 0 then []
    else if OptionalAt(s) then [Opt(s[1..1 + WordRun(s[1..])])] + Tokenize(s[2 + WordRun(s[1..])..])
    else if RequiredAt(s) then [Req(s[1..1 + WordRun(s[1..])])] + Tokenize(s[1 + WordRun(s[1..])..])
    else [Lit(s[0])] + Tokenize(s[1..])
  }

  /** The pattern text a token sequence stands for. */
  function Render(ts: seq<Token>): string
  {
    if ts == [] then ""
    else
      match ts[0]
      case Lit(c) => [c] + Render(ts[1..])
      case Req(_) => REQUIRED_GROUP + Render(ts[1..])
      case Opt(_) => OPTIONAL_GROUP + Render(ts[1..])
  }

  /** Parameter names in template order, required and optional alike. */
  function Names(ts: seq<Token>): seq<string>
  {
    if ts == [] then []
    else
      match ts[0]
      case Lit(_) => Names(ts[1..])
      case Req(n) => [n] + Names(ts[1..])
      case Opt(n) => [n] + Names(ts[1..])
  }

  lemma {:induction false} ReplaceRequiredSkipsPlain(a: string, x: string)
    requires ':' !in a
    ensures ReplaceRequired(a + x) == a + ReplaceRequired(x)
  {
    if a != [] {
      assert (a + x)[0] == a[0];
      assert (a + x)[1..] == a[1..] + x;
      ReplaceRequiredSkipsPlain(a[1..], x);
    } else {
      assert a + x == x;
    }
  }

  lemma {:induction false} ReplaceOptionalSkipsPlain(a: string, x: string)
    requires ':' !in a
    ensures ReplaceOptional(a + x) == a + ReplaceOptional(x)
  {
    if a != [] {
      assert (a + x)[0] == a[0];
      assert (a + x)[1..] == a[1..] + x;
      ReplaceOptionalSkipsPlain(a[1..], x);
    } else {
      assert a + x == x;
    }
  }

  /** The first pass never produces a word character where the template had none. */
  lemma ReplaceOptionalHead(s: string)
    ensures s == [] <==> ReplaceOptional(s) == []
    ensures s != [] ==> ReplaceOptional(s)[0] == (if OptionalAt(s) then '?' else s[0])
  {
  }

  /**
   * The two replacement passes of the Route constructor (route.js:37) produce
   * exactly the rendering of the tokenized template: no replacement of the
   * second pass straddles text produced by the first.
   */
  lemma {:induction false} ReplaceChainIsRender(s: string)
    ensures ReplaceRequired(ReplaceOptional(s)) == Render(Tokenize(s))
    decreases |s|
  {
    if |s| == 0 {
    } else if OptionalAt(s) {
      var rest := s[2 + WordRun(s[1..])..];
      ReplaceChainIsRender(rest);
      ChainOptionalStep(s);
    } else if RequiredAt(s) {
      ReplaceChainIsRender(s[1 + WordRun(s[1..])..]);
      ChainRequiredStep(s);
    } else {
      ReplaceChainIsRender(s[1..]);
      ChainPlainStep(s);
    }
  }

  /** An optional parameter at the head: the first pass emits its group, which the second pass leaves alone. */
  lemma ChainOptionalStep(s: string)
    requires |s| > 0 && OptionalAt(s)
    requires var rest := s[2 + WordRun(s[1..])..];
      ReplaceRequired(ReplaceOptional(rest)) == Render(Tokenize(rest))
    ensures ReplaceRequired(ReplaceOptional(s)) == Render(Tokenize(s))
  {
    var rest := s[2 + WordRun(s[1..])..];
    ReplaceRequiredSkipsPlain(OPTIONAL_GROUP, ReplaceOptional(rest));
  }

  /** A required parameter at the head: the first pass keeps `:name`, and the second pass sees the same name. */
  lemma ChainRequiredStep(s: string)
    requires |s| > 0 && !OptionalAt(s) && RequiredAt(s)
    requires var rest := s[1 + WordRun(s[1..])..];
      ReplaceRequired(ReplaceOptional(rest)) == Render(Tokenize(rest))
    ensures ReplaceRequired(ReplaceOptional(s)) == Render(Tokenize(s))
  {
    var k := WordRun(s[1..]);
    var w := s[1..1 + k];
    var rest := s[1 + k..];
    var r := ReplaceOptional(rest);
    assert s == [':'] + w + rest by {
      assert s[1..] == w + rest;
    }
    assert rest != [] ==> rest[0] == s[1 + k] && rest[0] == s[1..][k];
    OptionalPassKeepsName(w, rest);
    ReplaceOptionalHead(rest);
    RequiredPassTakesName(w, r);
    assert Tokenize(s) == [Req(w)] + Tokenize(rest);
    assert ([Req(w)] + Tokenize(rest))[1..] == Tokenize(rest);
  }

  /** The first pass copies a `:name` that is not followed by `?`, and goes on after the name. */
  lemma OptionalPassKeepsName(w: string, rest: string)
    requires |w| > 0 && forall i | 0 <= i < |w| :: IsWordChar(w[i])
    requires rest == [] || (!IsWordChar(rest[0]) && rest[0] != '?')
    ensures ReplaceOptional([':'] + w + rest) == [':'] + w + ReplaceOptional(rest)
  {
    ColonBeforeNameCopied(w, rest);
    NameCopied(w, rest);
    Regroup([':'], w, ReplaceOptional(rest));
  }

  lemma Regroup(a: string, b: string, c: string)
    ensures a + (b + c) == a + b + c
  {
  }

  /** The colon of a `:name` not followed by `?` is copied by the first pass. */
  lemma ColonBeforeNameCopied(w: string, rest: string)
    requires |w| > 0 && forall i | 0 <= i < |w| :: IsWordChar(w[i])
    requires rest == [] || (!IsWordChar(rest[0]) && rest[0] != '?')
    ensures ReplaceOptional([':'] + w + rest) == [':'] + ReplaceOptional(w + rest)
  {
    var t := [':'] + w + rest;
    assert t[1..] == w + rest;
    WordRunOfConcat(w, rest);
    assert !OptionalAt(t) by {
      if 1 + |w| < |t| {
        assert t[1 + |w|] == rest[0];
      }
    }
    HeadCopied(t);
  }

  /** Word characters pass through the first pass unchanged. */
  lemma NameCopied(w: string, rest: string)
    requires forall i | 0 <= i < |w| :: IsWordChar(w[i])
    ensures ReplaceOptional(w + rest) == w + ReplaceOptional(rest)
  {
    assert ':' !in w by {
      assert !IsWordChar(':');
    }
    ReplaceOptionalSkipsPlain(w, rest);
  }

  /** The first pass copies a head character that does not start `:name?`. */
  lemma HeadCopied(s: string)
    requires |s| > 0 && !OptionalAt(s)
    ensures ReplaceOptional(s) == [s[0]] + ReplaceOptional(s[1..])
  {
  }

  /** The second pass replaces `:name` by a required group when nothing continues the name. */
  lemma RequiredPassTakesName(w: string, r: string)
    requires |w| > 0 && forall i | 0 <= i < |w| :: IsWordChar(w[i])
    requires r == [] || !IsWordChar(r[0])
    ensures ReplaceRequired([':'] + w + r) == REQUIRED_GROUP + ReplaceRequired(r)
  {
    var t := [':'] + w + r;
    assert t[1..] == w + r;
    WordRunOfConcat(w, r);
    assert RequiredAt(t);
    assert t[1 + |w|..] == r;
  }

  /** A plain character at the head passes through both replacements. */
  lemma ChainPlainStep(s: string)
    requires |s| > 0 && !OptionalAt(s) && !RequiredAt(s)
    requires ReplaceRequired(ReplaceOptional(s[1..])) == Render(Tokenize(s[1..]))
    ensures ReplaceRequired(ReplaceOptional(s)) == Render(Tokenize(s))
  {
    var r := ReplaceOptional(s[1..]);
    assert ReplaceOptional(s) == [s[0]] + r;
    var ts := Tokenize(s[1..]);
    assert Tokenize(s) == [Lit(s[0])] + ts;
    assert ([Lit(s[0])] + ts)[1..] == ts;
    assert Render(Tokenize(s)) == [s[0]] + Render(ts);
    PlainHeadKept(s[0], r, s[1..]);
  }

  /**
   * The second pass keeps a plain head character: a `:` that the first pass
   * left in front of something other than a name is not a parameter either.
   */
  lemma PlainHeadKept(c: char, r: string, x: string)
    requires r == ReplaceOptional(x)
    requires c == ':' ==> !RequiredAt([c] + x)
    ensures ReplaceRequired([c] + r) == [c] + ReplaceRequired(r)
  {
    var t := [c] + r;
    assert t[0] == c && t[1..] == r;
    if c == ':' {
      ReplaceOptionalHead(x);
      assert (x == [] || !IsWordChar(x[0])) by {
        assert ([c] + x)[1..] == x;
      }
      assert !RequiredAt(t);
    }
  }

  /** `ps` lists the names of `ns`, each behind its colon. */
  ghost predicate Colons(ps: seq<string>, ns: seq<string>)
  {
    |ps| == |ns| && forall i | 0 <= i < |ps| :: ps[i] == [':'] + ns[i]
  }

  lemma ColonsCons(w: string, ps: seq<string>, ns: seq<string>)
    requires Colons(ps, ns)
    ensures Colons([[':'] + w] + ps, [w] + ns)
  {
    forall i | 1 <= i < |ps| + 1
      ensures ([[':'] + w] + ps)[i] == [':'] + ([w] + ns)[i]
    {
      assert ([[':'] + w] + ps)[i] == ps[i - 1] && ([w] + ns)[i] == ns[i - 1];
    }
  }

  /** `path.match(/:\w+/g)` lists the parameter names of the template, each behind its colon, in order. */
  lemma {:induction false} ParamTokensAreNames(s: string)
    ensures Colons(ParamTokens(s), Names(Tokenize(s)))
    decreases |s|
  {
    if |s| == 0 {
    } else if RequiredAt(s) {
      var k := WordRun(s[1..]);
      var w := s[1..1 + k];
      var rest := if OptionalAt(s) then s[2 + k..] else s[1 + k..];
      assert s[..1 + k] == [':'] + w;
      if OptionalAt(s) {
        assert s[1 + k..] == ['?'] + rest;
        assert !RequiredAt(s[1 + k..]);
        assert ParamTokens(s[1 + k..]) == ParamTokens(rest);
        assert Tokenize(s) == [Opt(w)] + Tokenize(rest);
      } else {
        assert Tokenize(s) == [Req(w)] + Tokenize(rest);
      }
      assert ParamTokens(s) == [[':'] + w] + ParamTokens(rest);
      assert Names(Tokenize(s)) == [w] + Names(Tokenize(rest));
      ParamTokensAreNames(rest);
      ColonsCons(w, ParamTokens(rest), Names(Tokenize(rest)));
    } else {
      assert Tokenize(s) == [Lit(s[0])] + Tokenize(s[1..]);
      assert Names(Tokenize(s)) == Names(Tokenize(s[1..]));
      ParamTokensAreNames(s[1..]);
    }
  }

  /** `url.match(/:\w+/g)` is non-null: some colon is directly followed by a word character. */
  predicate ContainsParameter(s: string)
  {
    ParamTokens(s) != []
  }

  lemma {:induction false} ContainsParameterIff(s: string)
    ensures ContainsParameter(s) <==> exists i | 0 <= i < |s| - 1 :: s[i] == ':' && IsWordChar(s[i + 1])
    decreases |s|
  {
    if |s| == 0 {
    } else if RequiredAt(s) {
      assert s[0] == ':' && IsWordChar(s[1]);
    } else {
      ContainsParameterIff(s[1..]);
      if exists i | 0 <= i < |s| - 1 :: s[i] == ':' && IsWordChar(s[i + 1]) {
        var i :| 0 <= i < |s| - 1 && s[i] == ':' && IsWordChar(s[i + 1]);
        if i > 0 {
          assert s[1..][i - 1] == ':' && IsWordChar(s[1..][i]);
        }
      }
      if exists i | 0 <= i < |s[1..]| - 1 :: s[1..][i] == ':' && IsWordChar(s[1..][i + 1]) {
        var i :| 0 <= i < |s[1..]| - 1 && s[1..][i] == ':' && IsWordChar(s[1..][i + 1]);
        assert s[i + 1] == ':' && IsWordChar(s[i + 2]);
      }
    }
  }

  /** One atom of the compiled pattern. */
  datatype Atom =
    | Char(c: char)      // a literal character
    | OptChar(c: char)   // `c?`
    | Plus               // `([^/]+)`
    | Star               // `([^/]*)`

  /**
   * Lowers tokens to atoms. An optional token makes the literal character
   * right before it optional, which is what the `?` at the head of its
   * replacement does to the preceding pattern character.
   */
  function Compile(ts: seq<Token>): seq<Atom>
  {
    if ts == [] then []
    else if |ts| >= 2 && ts[0].Lit? && ts[1].Opt? then [OptChar(ts[0].c), Star] + Compile(ts[2..])
    else
      match ts[0]
      case Lit(c) => [Char(c)] + Compile(ts[1..])
      case Req(_) => [Plus] + Compile(ts[1..])
      case Opt(_) => [Star] + Compile(ts[1..])
  }

  /** The pattern text of a sequence of atoms. */
  function Source(atoms: seq<Atom>): string
  {
    if atoms == [] then ""
    else
      match atoms[0]
      case Char(c) => [c] + Source(atoms[1..])
      case OptChar(c) => [c, '?'] + Source(atoms[1..])
      case Plus => "([^/]+)" + Source(atoms[1..])
      case Star => "([^/]*)" + Source(atoms[1..])
  }

  /** Every optional token directly follows a literal character. */
  predicate OptionalsFollowLiterals(ts: seq<Token>)
  {
    forall i | 0 <= i < |ts| && ts[i].Opt? :: 0 < i && ts[i - 1].Lit?
  }

  /** Characters with a meaning in JS regular expressions. */
  predicate IsRegexMeta(c: char)
  {
    c in "^$\\.*+?()[]{}|"
  }

  predicate PlainLiterals(ts: seq<Token>)
  {
    forall i | 0 <= i < |ts| && ts[i].Lit? :: !IsRegexMeta(ts[i].c)
  }

  /** The templates whose compiled pattern means what the atoms say. */
  predicate Supported(path: string)
  {
    OptionalsFollowLiterals(Tokenize(path)) && PlainLiterals(Tokenize(path))
  }

  /** When optionals follow literals, the atoms spell out exactly the rendered pattern. */
  lemma {:induction false} CompiledSourceIsRender(ts: seq<Token>)
    requires OptionalsFollowLiterals(ts)
    ensures Source(Compile(ts)) == Render(ts)
    decreases |ts|
  {
    if ts == [] {
    } else if |ts| >= 2 && ts[0].Lit? && ts[1].Opt? {
      var rest := ts[2..];
      assert OptionalsFollowLiterals(rest) by {
        forall i | 0 <= i < |rest| && rest[i].Opt?
          ensures 0 < i && rest[i - 1].Lit?
        {
          assert ts[i + 2] == rest[i];
        }
      }
      CompiledSourceIsRender(rest);
      assert Compile(ts) == [OptChar(ts[0].c), Star] + Compile(rest);
      assert Source(Compile(ts)) == [ts[0].c, '?'] + "([^/]*)" + Source(Compile(rest));
      assert Render(ts) == [ts[0].c] + (OPTIONAL_GROUP + Render(rest));
    } else {
      var rest := ts[1..];
      assert !ts[0].Opt?;
      assert OptionalsFollowLiterals(rest) by {
        forall i | 0 <= i < |rest| && rest[i].Opt?
          ensures 0 < i && rest[i - 1].Lit?
        {
          assert ts[i + 1] == rest[i];
        }
      }
      CompiledSourceIsRender(rest);
    }
  }

  /** The pattern has as many groups as there are parameter tokens. */
  function GroupCount(atoms: seq<Atom>): nat
  {
    if atoms == [] then 0
    else (if atoms[0].Plus? || atoms[0].Star? then 1 else 0) + GroupCount(atoms[1..])
  }

  lemma {:induction false} GroupCountAppend(a: seq<Atom>, b: seq<Atom>)
    ensures GroupCount(a + b) == GroupCount(a) + GroupCount(b)
  {
    if a != [] {
      assert (a + b)[1..] == a[1..] + b;
      GroupCountAppend(a[1..], b);
    } else {
      assert a + b == b;
    }
  }

  lemma {:induction false} GroupsMatchNames(ts: seq<Token>)
    ensures GroupCount(Compile(ts)) == |Names(ts)|
    decreases |ts|
  {
    if ts == [] {
    } else if |ts| >= 2 && ts[0].Lit? && ts[1].Opt? {
      GroupsMatchNames(ts[2..]);
      GroupCountAppend([OptChar(ts[0].c), Star], Compile(ts[2..]));
      assert ts[1..][1..] == ts[2..];
    } else {
      GroupsMatchNames(ts[1..]);
      match ts[0]
      case Lit(c) => GroupCountAppend([Char(c)], Compile(ts[1..]));
      case Req(_) => GroupCountAppend([Plus], Compile(ts[1..]));
      case Opt(_) => GroupCountAppend([Star], Compile(ts[1..]));
    }
  }

  /** The literal tokens of a string read character by character. */
  function Lits(a: string): (ts: seq<Token>)
    ensures |ts| == |a|
    ensures forall i | 0 <= i < |a| :: ts[i] == Lit(a[i])
  {
    if a == [] then [] else [Lit(a[0])] + Lits(a[1..])
  }

  /** Text without a colon tokenizes to its literal characters. */
  lemma {:induction false} TokenizePlain(a: string, x: string)
    requires ':' !in a
    ensures Tokenize(a + x) == Lits(a) + Tokenize(x)
  {
    if a != [] {
      assert (a + x)[0] == a[0];
      assert (a + x)[1..] == a[1..] + x;
      TokenizePlain(a[1..], x);
    } else {
      assert a + x == x;
    }
  }

  /** `:w` followed by neither a word character nor `?` is one required token. */
  lemma TokenizeRequired(w: string, x: string)
    requires |w| > 0 && forall i | 0 <= i < |w| :: IsWordChar(w[i])
    requires x == [] || (!IsWordChar(x[0]) && x[0] != '?')
    ensures Tokenize([':'] + w + x) == [Req(w)] + Tokenize(x)
  {
    var s := [':'] + w + x;
    assert s[1..] == w + x;
    WordRunOfConcat(w, x);
    assert s[1..1 + |w|] == w;
    assert s[1 + |w|..] == x;
  }

  /** `:w?` is one optional token. */
  lemma TokenizeOptional(w: string, x: string)
    requires |w| > 0 && forall i | 0 <= i < |w| :: IsWordChar(w[i])
    ensures Tokenize([':'] + w + ['?'] + x) == [Opt(w)] + Tokenize(x)
  {
    var s := [':'] + w + ['?'] + x;
    assert s[1..] == w + (['?'] + x);
    WordRunOfConcat(w, ['?'] + x);
    assert s[1..1 + |w|] == w;
    assert s[2 + |w|..] == x;
  }

  /** A template with no `:name` token is all literal characters. */
  lemma {:induction false} TokenizeWithoutParameters(s: string)
    requires ParamTokens(s) == []
    ensures Tokenize(s) == Lits(s)
    decreases |s|
  {
    if s != [] {
      assert !RequiredAt(s);
      TokenizeWithoutParameters(s[1..]);
    }
  }

  /** The literal atoms of a string. */
  function Chars(a: string): (atoms: seq<Atom>)
    ensures |atoms| == |a|
    ensures forall i | 0 <= i < |a| :: atoms[i] == Char(a[i])
  {
    if a == [] then [] else [Char(a[0])] + Chars(a[1..])
  }

  /** Literal tokens not followed by an optional token lower to literal atoms. */
  lemma {:induction false} CompileLits(a: string, ts: seq<Token>)
    requires ts == [] || !ts[0].Opt?
    ensures Compile(Lits(a) + ts) == Chars(a) + Compile(ts)
  {
    if a != [] {
      var u := Lits(a) + ts;
      assert u[1..] == Lits(a[1..]) + ts;
      assert |u| >= 2 ==> !u[1].Opt? by {
        if |u| >= 2 && |a| == 1 {
          assert u[1] == ts[0];
        }
      }
      CompileLits(a[1..], ts);
    } else {
      assert Lits(a) + ts == ts;
    }
  }

  lemma {:induction false} LitsAppend(a: string, b: string)
    ensures Lits(a + b) == Lits(a) + Lits(b)
  {
    if a != [] {
      assert (a + b)[1..] == a[1..] + b;
      LitsAppend(a[1..], b);
    } else {
      assert a + b == b;
    }
  }

  /** Literal tokens carry no parameter names. */
  lemma {:induction false} NamesOfLits(a: string, ts: seq<Token>)
    ensures Names(Lits(a) + ts) == Names(ts)
  {
    if a != [] {
      assert (Lits(a) + ts)[1..] == Lits(a[1..]) + ts;
      NamesOfLits(a[1..], ts);
    } else {
      assert Lits(a) + ts == ts;
    }
  }

  lemma NamesOfParameter(t: Token, ts: seq<Token>)
    requires !t.Lit?
    ensures Names([t] + ts) == [t.name] + Names(ts)
  {
    assert ([t] + ts)[1..] == ts;
  }

  lemma CompileRequiredHead(n: string, ts: seq<Token>)
    ensures Compile([Req(n)] + ts) == [Plus] + Compile(ts)
  {
    assert ([Req(n)] + ts)[1..] == ts;
  }

  lemma CompileOptionalAfter(c: char, n: string, ts: seq<Token>)
    ensures Compile([Lit(c), Opt(n)] + ts) == [OptChar(c), Star] + Compile(ts)
  {
    assert ([Lit(c), Opt(n)] + ts)[2..] == ts;
  }
}
