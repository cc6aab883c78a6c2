/**
 * Templates made of required parameters separated by one delimiter
 * character, such as `/flights/:from-:to-:orderBy-:top`. When no value
 * contains the delimiter, the pattern has exactly one way to cut the path,
 * so the greedy match hands every parameter its own value.
 */
module DelimitedMatch {
  import opened Wrappers
  import opened JsValues
  import opened Strings
  import opened PathTemplate
  import opened PathMatcher
  import opened Routes

  /** `([^/]+)`, then `d([^/]+)` `k` more times. */
  function Delimited(d: char, k: nat): (p: seq<Atom>)
    ensures |p| == 2 * k + 1
  {
    if k == 0 then [Plus] else [Plus, Char(d)] + Delimited(d, k - 1)
  }

  /** The values with the one-character piece `d` between neighbours. */
  function Interleave(values: seq<string>, d: char): (ps: seq<string>)
    requires |values| > 0
    ensures |ps| == 2 * |values| - 1
  {
    if |values| == 1 then [values[0]] else [values[0], [d]] + Interleave(values[1..], d)
  }

  /** Values that each fill one group: non-empty, without `/` and without the delimiter. */
  predicate Segments(values: seq<string>, d: char)
  {
    |values| > 0 && forall i | 0 <= i < |values| :: |values[i]| > 0 && '/' !in values[i] && d !in values[i]
  }

  /** The number of occurrences of `c` in `s`. */
  function Count(c: char, s: string): nat
  {
    if s == [] then 0 else (if s[0] == c then 1 else 0) + Count(c, s[1..])
  }

  lemma {:induction false} CountAppend(c: char, a: string, b: string)
    ensures Count(c, a + b) == Count(c, a) + Count(c, b)
  {
    if a != [] {
      assert (a + b)[1..] == a[1..] + b;
      CountAppend(c, a[1..], b);
    } else {
      assert a + b == b;
    }
  }

  lemma {:induction false} CountAbsent(c: char, a: string)
    requires c !in a
    ensures Count(c, a) == 0
  {
    if a != [] {
      assert c !in a[1..];
      CountAbsent(c, a[1..]);
    }
  }

  lemma {:induction false} CountPresent(c: char, a: string, i: nat)
    requires i < |a| && a[i] == c
    ensures Count(c, a) >= 1
  {
    if i > 0 {
      CountPresent(c, a[1..], i - 1);
    }
  }

  /** Joining the values with `d` puts exactly one `d` between each pair of neighbours and none elsewhere. */
  lemma {:induction false} JoinCount(values: seq<string>, d: char)
    requires Segments(values, d)
    ensures Count(d, Join(values, [d])) == |values| - 1
  {
    CountAbsent(d, values[0]);
    if |values| > 1 {
      var rest := values[1..];
      assert Segments(rest, d) by {
        forall i | 0 <= i < |rest| ensures |rest[i]| > 0 && '/' !in rest[i] && d !in rest[i] {
          assert rest[i] == values[i + 1];
        }
      }
      JoinCount(rest, d);
      CountAppend(d, values[0] + [d], Join(rest, [d]));
      CountAppend(d, values[0], [d]);
    }
  }

  /** The tail of a sequence of segments is one too. */
  lemma SegmentsTail(values: seq<string>, d: char)
    requires Segments(values, d) && |values| > 1
    ensures Segments(values[1..], d)
  {
    forall i | 0 <= i < |values[1..]|
      ensures |values[1..][i]| > 0 && '/' !in values[1..][i] && d !in values[1..][i]
    {
      assert values[1..][i] == values[i + 1];
    }
  }

  /** The value-and-delimiter cut fits the pattern. */
  lemma {:induction false} InterleaveFits(values: seq<string>, d: char)
    requires d != '/' && Segments(values, d)
    ensures Fits(Delimited(d, |values| - 1), Interleave(values, d), Join(values, [d]))
  {
    var s := Join(values, [d]);
    if |values| == 1 {
      assert Concat([values[0]]) == values[0] + Concat([]);
    } else {
      var rest := values[1..];
      SegmentsTail(values, d);
      InterleaveFits(rest, d);
      var p := Delimited(d, |values| - 1);
      var ps := Interleave(values, d);
      assert p == [Plus, Char(d)] + Delimited(d, |rest| - 1);
      assert ps == [values[0], [d]] + Interleave(rest, d);
      assert s == values[0] + ([d] + Join(rest, [d]));
      assert s[|values[0]|..] == [d] + Join(rest, [d]);
      assert p[1..][1..] == Delimited(d, |rest| - 1);
      assert ps[1..][1..] == Interleave(rest, d);
      FitsUnfold(p[1..], ps[1..], s[|values[0]|..]);
      assert ([d] + Join(rest, [d]))[1..] == Join(rest, [d]);
      FitsUnfold(p, ps, s);
    }
  }

  /** A cut that fits `([^/]+)d...` starts with a group, then the delimiter, then a cut of the rest. */
  lemma DelimitedUnfold(d: char, k: nat, ps: seq<string>, s: string)
    requires k > 0 && Fits(Delimited(d, k), ps, s)
    ensures |ps[0]| < |s| && ps[0] == s[..|ps[0]|] && s[|ps[0]|] == d && ps[1] == [d]
    ensures Fits(Delimited(d, k - 1), ps[2..], s[|ps[0]| + 1..])
  {
    var p := Delimited(d, k);
    FitsUnfold(p, ps, s);
    var s1 := s[|ps[0]|..];
    FitsUnfold(p[1..], ps[1..], s1);
    assert p[1..][1..] == Delimited(d, k - 1);
    assert ps[1..][1..] == ps[2..];
    assert s1[1..] == s[|ps[0]| + 1..];
  }

  /** A cut that fits the single group `([^/]+)` is the whole string. */
  lemma SingleGroupFit(ps: seq<string>, s: string)
    requires Fits([Plus], ps, s)
    ensures ps == [s]
  {
    assert ps[1..] == [] && Concat(ps[1..]) == "";
    assert Concat(ps) == ps[0] + Concat(ps[1..]) == ps[0] + "" == ps[0];
    assert ps == [ps[0]];
  }

  /** Every cut that fits the pattern holds at least one delimiter per `d` atom. */
  lemma {:induction false} FitsCount(d: char, k: nat, ps: seq<string>, s: string)
    requires Fits(Delimited(d, k), ps, s)
    ensures Count(d, s) >= k
  {
    if k > 0 {
      DelimitedUnfold(d, k, ps, s);
      var L := |ps[0]|;
      FitsCount(d, k - 1, ps[2..], s[L + 1..]);
      assert s == ps[0] + [d] + s[L + 1..] by {
        assert s == s[..L] + [s[L]] + s[L + 1..];
      }
      CountAppend(d, ps[0] + [d], s[L + 1..]);
      CountAppend(d, ps[0], [d]);
    }
  }

  /**
   * The first group of a fitting cut of the joined values is the first
   * value: reaching past the first delimiter would leave too few
   * delimiters for the rest of the pattern.
   */
  lemma FirstGroupIsFirstValue(values: seq<string>, d: char, ps: seq<string>)
    requires d != '/' && Segments(values, d) && |values| > 1
    requires Fits(Delimited(d, |values| - 1), ps, Join(values, [d]))
    ensures ps[0] == values[0] && ps[1] == [d]
    ensures Fits(Delimited(d, |values| - 2), ps[2..], Join(values[1..], [d]))
  {
    var s := Join(values, [d]);
    var v0 := values[0];
    var rest := values[1..];
    var t := Join(rest, [d]);
    assert s == v0 + [d] + t;
    DelimitedUnfold(d, |values| - 1, ps, s);
    var L := |ps[0]|;
    assert L >= |v0|;
    if L > |v0| {
      var j := L - |v0|;
      assert t[j - 1] == s[L];
      assert s[L + 1..] == t[j..];
      FitsCount(d, |values| - 2, ps[2..], t[j..]);
      CountPresent(d, t[..j], j - 1);
      assert t == t[..j] + t[j..];
      CountAppend(d, t[..j], t[j..]);
      SegmentsTail(values, d);
      JoinCount(rest, d);
      assert false;
    }
    assert s[..L] == v0;
    assert s[L + 1..] == t;
  }

  /**
   * When no value holds the delimiter, the value-and-delimiter cut is the
   * only one that fits.
   */
  lemma {:induction false} UniqueFit(values: seq<string>, d: char, ps: seq<string>)
    requires d != '/' && Segments(values, d)
    requires Fits(Delimited(d, |values| - 1), ps, Join(values, [d]))
    ensures ps == Interleave(values, d)
  {
    if |values| == 1 {
      SingleGroupFit(ps, Join(values, [d]));
    } else {
      FirstGroupIsFirstValue(values, d, ps);
      SegmentsTail(values, d);
      UniqueFit(values[1..], d, ps[2..]);
      assert ps == [ps[0], ps[1]] + ps[2..];
    }
  }

  /** The matcher cuts the joined values at the delimiters. */
  lemma DelimitedMatches(values: seq<string>, d: char)
    requires d != '/' && Segments(values, d)
    ensures Matches(Delimited(d, |values| - 1), Join(values, [d])) == Some(Interleave(values, d))
  {
    var p := Delimited(d, |values| - 1);
    var s := Join(values, [d]);
    InterleaveFits(values, d);
    MatchesGreediest(p, s, Interleave(values, d));
    MatchesSound(p, s);
    UniqueFit(values, d, Matches(p, s).value);
  }

  /** The groups of that cut are the values. */
  lemma {:induction false} CapturesInterleave(values: seq<string>, d: char)
    requires |values| > 0
    ensures Captures(Delimited(d, |values| - 1), Interleave(values, d)) == values
  {
    if |values| > 1 {
      var p := Delimited(d, |values| - 1);
      var ps := Interleave(values, d);
      CapturesInterleave(values[1..], d);
      assert p[1..][1..] == Delimited(d, |values| - 2);
      assert ps[1..][1..] == Interleave(values[1..], d);
      assert values == [values[0]] + values[1..];
    }
  }

  /** A delimiter between parameter tokens: it ends a name and is neither `?` nor `:`. */
  predicate IsDelimiter(d: char)
  {
    !IsWordChar(d) && d != '?' && d != ':' && d != '/'
  }

  /** `:n0` + `d:n1` + ... + `d:nk` */
  function DelimitedTemplate(names: seq<string>, d: char): string
    requires |names| > 0
  {
    if |names| == 1 then [':'] + names[0]
    else [':'] + names[0] + ([d] + DelimitedTemplate(names[1..], d))
  }

  /** `Req(n0)`, then `Lit(d), Req(ni)` for each further name. */
  function DelimitedTokens(names: seq<string>, d: char): (ts: seq<Token>)
    requires |names| > 0
    ensures |ts| > 0 && ts[0] == Req(names[0])
  {
    if |names| == 1 then [Req(names[0])]
    else [Req(names[0])] + ([Lit(d)] + DelimitedTokens(names[1..], d))
  }

  predicate AllNames(names: seq<string>)
  {
    |names| > 0 && forall i | 0 <= i < |names| :: IsName(names[i])
  }

  lemma AllNamesTail(names: seq<string>)
    requires AllNames(names) && |names| > 1
    ensures AllNames(names[1..])
  {
    forall i | 0 <= i < |names[1..]| ensures IsName(names[1..][i]) {
      assert names[1..][i] == names[i + 1];
    }
  }

  lemma {:induction false} TokenizeDelimited(names: seq<string>, d: char)
    requires AllNames(names) && IsDelimiter(d)
    ensures Tokenize(DelimitedTemplate(names, d)) == DelimitedTokens(names, d)
  {
    assert IsName(names[0]);
    if |names| == 1 {
      TokenizeRequired(names[0], "");
      assert [':'] + names[0] + "" == [':'] + names[0];
    } else {
      AllNamesTail(names);
      var rest := DelimitedTemplate(names[1..], d);
      TokenizeDelimited(names[1..], d);
      TokenizePlain([d], rest);
      TokenizeRequired(names[0], [d] + rest);
    }
  }

  lemma {:induction false} CompileDelimited(names: seq<string>, d: char)
    requires |names| > 0
    ensures Compile(DelimitedTokens(names, d)) == Delimited(d, |names| - 1)
    ensures Names(DelimitedTokens(names, d)) == names
  {
    if |names| == 1 {
      CompileRequiredHead(names[0], []);
      NamesOfParameter(Req(names[0]), []);
      assert [Req(names[0])] + [] == [Req(names[0])];
    } else {
      var rest := DelimitedTokens(names[1..], d);
      CompileDelimited(names[1..], d);
      CompileLits([d], rest);
      CompileRequiredHead(names[0], [Lit(d)] + rest);
      NamesOfLits([d], rest);
      NamesOfParameter(Req(names[0]), [Lit(d)] + rest);
      assert names == [names[0]] + names[1..];
    }
  }

  /** The route pattern of `a` + the delimited template: literal atoms, then the delimited groups. */
  lemma DelimitedPattern(a: string, names: seq<string>, d: char, handler: JsValue)
    requires ':' !in a && AllNames(names) && IsDelimiter(d)
    ensures Pattern(Route(a + DelimitedTemplate(names, d), handler)) == Chars(a) + Delimited(d, |names| - 1)
    ensures ParamNames(a + DelimitedTemplate(names, d)) == names
  {
    TokenizeDelimited(names, d);
    TokenizePlain(a, DelimitedTemplate(names, d));
    CompileDelimited(names, d);
    CompileLits(a, DelimitedTokens(names, d));
    NamesOfLits(a, DelimitedTokens(names, d));
  }

  /**
   * A route `a:n0-:n1-...-:nk` and a url `a` + `v0-v1-...-vk` whose values
   * hold no `-`: the route matches and each name gets its own value.
   */
  lemma DelimitedParams(a: string, names: seq<string>, d: char, values: seq<string>, handler: JsValue)
    requires ':' !in a && AllNames(names) && IsDelimiter(d)
    requires |values| == |names| && Segments(values, d) && values[0][0] != ':'
    ensures Match(Route(a + DelimitedTemplate(names, d), handler), Str(a + Join(values, [d]))) == Success(true)
    ensures Params(Route(a + DelimitedTemplate(names, d), handler), a + Join(values, [d])) ==
      Success(Bind(names, values))
  {
    var path := a + DelimitedTemplate(names, d);
    var route := Route(path, handler);
    var url := a + Join(values, [d]);
    var q := Delimited(d, |names| - 1);
    DelimitedPattern(a, names, d, handler);
    DelimitedMatches(values, d);
    MatchesLiteralPrefix(a, q, Join(values, [d]));
    assert url != path by {
      assert Join(values, [d])[0] == values[0][0];
      assert url[|a|] == values[0][0] && path[|a|] == ':';
    }
    CapturesAppend(Chars(a), Singles(a), q, Interleave(values, d));
    CapturesOfLiterals(a);
    CapturesInterleave(values, d);
    assert GroupsOf(route, url) == values;
  }
}
