/**
 * The anchored pattern `^...$` built by the Route constructor, interpreted
 * the way a backtracking JS regex engine runs it: atoms are tried left to
 * right, every quantified atom (`c?`, `[^/]+`, `[^/]*`) first takes as many
 * characters as it can and gives them back one at a time, and the first
 * complete match wins.
 *
 * A match is given as its pieces: one substring of the path per atom.
 */
module PathMatcher {
  import opened Wrappers
  import opened Strings
  import opened PathTemplate

  /** Length of the longest prefix of `s` without `/`. */
  function SegmentRun(s: string): (n: nat)
    ensures n <= |s|
    ensures forall i | 0 <= i < n :: s[i] != '/'
    ensures n < |s| ==> s[n] == '/'
  {
    if |s| == 0 || s[0] == '/' then 0 else 1 + SegmentRun(s[1..])
  }

  /** The pieces an atom accepts. */
  predicate FitsAtom(a: Atom, piece: string)
  {
    match a
    case Char(c) => piece == [c]
    case OptChar(c) => piece == [] || piece == [c]
    case Plus => |piece| > 0 && '/' !in piece
    case Star => '/' !in piece
  }

  function Concat(ps: seq<string>): string
  {
    if ps == [] then "" else ps[0] + Concat(ps[1..])
  }

  /** `ps` cuts `s` into one piece per atom of `p`, each accepted by its atom. */
  predicate Fits(p: seq<Atom>, ps: seq<string>, s: string)
  {
    |ps| == |p| && Concat(ps) == s && forall i | 0 <= i < |p| :: FitsAtom(p[i], ps[i])
  }

  /** The fewest characters an atom takes. */
  function MinLen(a: Atom): nat
  {
    match a
    case Char(_) => 1
    case OptChar(_) => 0
    case Plus => 1
    case Star => 0
  }

  /** The most characters an atom can take from the front of `s`. */
  function MaxLen(a: Atom, s: string): (n: nat)
    ensures n <= |s|
  {
    match a
    case Char(c) => if |s| > 0 && s[0] == c then 1 else 0
    case OptChar(c) => if |s| > 0 && s[0] == c then 1 else 0
    case Plus => SegmentRun(s)
    case Star => SegmentRun(s)
  }

  /** An atom accepts the first `k` characters of `s` exactly when `k` lies between its bounds. */
  lemma FitsAtomPrefix(a: Atom, s: string, k: nat)
    requires k <= |s|
    ensures FitsAtom(a, s[..k]) <==> MinLen(a) <= k <= MaxLen(a, s)
  {
    match a
    case Char(c) =>
    case OptChar(c) =>
    case Plus => SegmentPrefix(s, k);
    case Star => SegmentPrefix(s, k);
  }

  lemma SegmentPrefix(s: string, k: nat)
    requires k <= |s|
    ensures '/' !in s[..k] <==> k <= SegmentRun(s)
  {
    if k > SegmentRun(s) {
      assert s[..k][SegmentRun(s)] == '/';
    } else {
      forall i | 0 <= i < k ensures s[..k][i] != '/' {
      }
    }
  }

  lemma FitsUnfold(p: seq<Atom>, ps: seq<string>, s: string)
    requires p != [] && |ps| == |p|
    ensures Fits(p, ps, s) <==>
      FitsAtom(p[0], ps[0]) && StartsWith(s, ps[0]) && Fits(p[1..], ps[1..], s[|ps[0]|..])
  {
    if Fits(p, ps, s) {
      forall i | 0 <= i < |p| - 1 ensures FitsAtom(p[1..][i], ps[1..][i]) {
        assert FitsAtom(p[i + 1], ps[i + 1]);
      }
      assert s[..|ps[0]|] == ps[0];
      assert s[|ps[0]|..] == Concat(ps[1..]);
    }
    if FitsAtom(p[0], ps[0]) && StartsWith(s, ps[0]) && Fits(p[1..], ps[1..], s[|ps[0]|..]) {
      forall i | 0 <= i < |p| ensures FitsAtom(p[i], ps[i]) {
        if i > 0 {
          assert FitsAtom(p[1..][i - 1], ps[1..][i - 1]);
        }
      }
      assert s == s[..|ps[0]|] + s[|ps[0]|..];
    }
  }

  /** The pieces of the first match in backtracking order, or `None` when the pattern rejects `s`. */
  function Matches(p: seq<Atom>, s: string): Option<seq<string>>
    decreases |p|, |s| + 1
  {
    if p == [] then (if s == [] then Some([]) else None)
    else Try(p, s, MaxLen(p[0], s))
  }

  /** Tries the first atom with `k`, then `k - 1`, ... characters, down to its minimum. */
  function Try(p: seq<Atom>, s: string, k: nat): Option<seq<string>>
    requires p != [] && k <= |s|
    decreases |p|, k
  {
    if k < MinLen(p[0]) then None
    else
      match Matches(p[1..], s[k..])
      case Some(rest) => Some([s[..k]] + rest)
      case None => if k == 0 then None else Try(p, s, k - 1)
  }

  /**
   * The piece lengths of `qs` are lexicographically at most those of `ps`:
   * `ps` is at least as greedy as `qs`, atom by atom from the left.
   */
  predicate NoGreedierThan(qs: seq<string>, ps: seq<string>)
  {
    qs == [] || ps == [] || |qs[0]| < |ps[0]| || (|qs[0]| == |ps[0]| && NoGreedierThan(qs[1..], ps[1..]))
  }

  /** Every match the matcher returns is a genuine cut of the path. */
  lemma {:induction false} MatchesSound(p: seq<Atom>, s: string)
    requires Matches(p, s).Some?
    ensures Fits(p, Matches(p, s).value, s)
    decreases |p|, |s| + 1
  {
    if p != [] {
      TrySound(p, s, MaxLen(p[0], s));
    }
  }

  lemma {:induction false} TrySound(p: seq<Atom>, s: string, k: nat)
    requires p != [] && k <= MaxLen(p[0], s)
    requires Try(p, s, k).Some?
    ensures Fits(p, Try(p, s, k).value, s)
    decreases |p|, k
  {
    var r := Matches(p[1..], s[k..]);
    if r.Some? {
      MatchesSound(p[1..], s[k..]);
      var ps := [s[..k]] + r.value;
      assert ps[1..] == r.value;
      FitsAtomPrefix(p[0], s, k);
      FitsUnfold(p, ps, s);
    } else {
      TrySound(p, s, k - 1);
    }
  }

  /**
   * Whenever some cut of the path fits the pattern, the matcher finds a match,
   * and the match it finds is at least as greedy as that cut.
   */
  lemma {:induction false} MatchesGreediest(p: seq<Atom>, s: string, qs: seq<string>)
    requires Fits(p, qs, s)
    ensures Matches(p, s).Some?
    ensures NoGreedierThan(qs, Matches(p, s).value)
    decreases |p|, |s| + 1
  {
    if p != [] {
      FitsUnfold(p, qs, s);
      assert qs[0] == s[..|qs[0]|];
      FitsAtomPrefix(p[0], s, |qs[0]|);
      TryGreediest(p, s, MaxLen(p[0], s), qs);
    }
  }

  lemma {:induction false} TryGreediest(p: seq<Atom>, s: string, k: nat, qs: seq<string>)
    requires p != [] && k <= MaxLen(p[0], s)
    requires Fits(p, qs, s) && |qs[0]| <= k
    ensures Try(p, s, k).Some?
    ensures NoGreedierThan(qs, Try(p, s, k).value)
    decreases |p|, k
  {
    FitsUnfold(p, qs, s);
    assert qs[0] == s[..|qs[0]|];
    FitsAtomPrefix(p[0], s, |qs[0]|);
    var r := Matches(p[1..], s[k..]);
    if k == |qs[0]| {
      MatchesGreediest(p[1..], s[k..], qs[1..]);
      var ps := [s[..k]] + r.value;
      assert ps[1..] == r.value;
    } else if r.None? {
      TryGreediest(p, s, k - 1, qs);
    }
  }

  /** The captured groups of a match: the pieces of its `Plus` and `Star` atoms, in order. */
  function Captures(p: seq<Atom>, ps: seq<string>): (caps: seq<string>)
    requires |ps| == |p|
    ensures |caps| == GroupCount(p)
  {
    if p == [] then []
    else if p[0].Plus? || p[0].Star? then [ps[0]] + Captures(p[1..], ps[1..])
    else Captures(p[1..], ps[1..])
  }

  /** One single-character piece per character of `a`. */
  function Singles(a: string): (ps: seq<string>)
    ensures |ps| == |a|
    ensures forall i | 0 <= i < |a| :: ps[i] == [a[i]]
  {
    if a == [] then [] else [[a[0]]] + Singles(a[1..])
  }

  /** A literal atom consumes its character or fails the whole match. */
  lemma MatchesCharHead(c: char, p: seq<Atom>, s: string)
    ensures Matches([Char(c)] + p, s) ==
      if |s| > 0 && s[0] == c && Matches(p, s[1..]).Some? then Some([[c]] + Matches(p, s[1..]).value) else None
  {
    var q := [Char(c)] + p;
    assert q[0] == Char(c) && q[1..] == p;
    assert Try(q, s, 0) == None;
    if |s| > 0 && s[0] == c {
      assert s[..1] == [c];
      assert Matches(q, s) == Try(q, s, 1);
    } else {
      assert Matches(q, s) == Try(q, s, 0);
    }
  }

  /** Literal atoms in front of a pattern match exactly the same characters in front of the path. */
  lemma {:induction false} MatchesLiteralPrefix(a: string, p: seq<Atom>, s: string)
    ensures Matches(Chars(a) + p, a + s) ==
      if Matches(p, s).Some? then Some(Singles(a) + Matches(p, s).value) else None
  {
    if a == [] {
      assert Chars(a) + p == p && a + s == s;
      if Matches(p, s).Some? {
        assert Singles(a) + Matches(p, s).value == Matches(p, s).value;
      }
    } else {
      assert Chars(a) + p == [Char(a[0])] + (Chars(a[1..]) + p);
      assert a + s == [a[0]] + (a[1..] + s);
      MatchesCharHead(a[0], Chars(a[1..]) + p, a + s);
      assert (a + s)[1..] == a[1..] + s;
      MatchesLiteralPrefix(a[1..], p, s);
      var r := Matches(p, s);
      if r.Some? {
        assert Singles(a) == [[a[0]]] + Singles(a[1..]);
        assert [[a[0]]] + (Singles(a[1..]) + r.value) == Singles(a) + r.value;
      }
    }
  }

  /** A pattern of literal atoms accepts its own text and nothing else. */
  lemma {:induction false} MatchesLiteralsOnly(a: string, u: string)
    ensures Matches(Chars(a), u).Some? <==> u == a
  {
    if a == [] {
    } else {
      assert Chars(a) == [Char(a[0])] + Chars(a[1..]);
      MatchesCharHead(a[0], Chars(a[1..]), u);
      if |u| > 0 {
        MatchesLiteralsOnly(a[1..], u[1..]);
        if u[0] == a[0] && u[1..] == a[1..] {
          assert u == [u[0]] + u[1..] && a == [a[0]] + a[1..];
        }
      }
    }
  }

  /** A `[^/]+` group at the front takes the whole first segment when the rest then matches. */
  lemma PlusTakesSegment(p: seq<Atom>, a: string, rest: string)
    requires |a| > 0 && '/' !in a
    requires rest == [] || rest[0] == '/'
    requires Matches(p, rest).Some?
    ensures Matches([Plus] + p, a + rest) == Some([a] + Matches(p, rest).value)
  {
    SegmentOfConcat(a, rest);
    var q := [Plus] + p;
    assert q[0] == Plus && q[1..] == p;
    assert (a + rest)[..|a|] == a && (a + rest)[|a|..] == rest;
  }

  /** A `[^/]*` group at the front takes the whole first segment, possibly empty, when the rest then matches. */
  lemma StarTakesSegment(p: seq<Atom>, a: string, rest: string)
    requires '/' !in a
    requires rest == [] || rest[0] == '/'
    requires Matches(p, rest).Some?
    ensures Matches([Star] + p, a + rest) == Some([a] + Matches(p, rest).value)
  {
    SegmentOfConcat(a, rest);
    var q := [Star] + p;
    assert q[0] == Star && q[1..] == p;
    assert (a + rest)[..|a|] == a && (a + rest)[|a|..] == rest;
  }

  lemma {:induction false} SegmentOfConcat(a: string, rest: string)
    requires '/' !in a
    requires rest == [] || rest[0] == '/'
    ensures SegmentRun(a + rest) == |a|
  {
    if a != [] {
      assert (a + rest)[0] == a[0];
      assert (a + rest)[1..] == a[1..] + rest;
      SegmentOfConcat(a[1..], rest);
    } else {
      assert a + rest == rest;
    }
  }

  /** `c?` takes its character when it is there and the rest then matches. */
  lemma OptCharTaken(c: char, p: seq<Atom>, s: string)
    requires Matches(p, s).Some?
    ensures Matches([OptChar(c)] + p, [c] + s) == Some([[c]] + Matches(p, s).value)
  {
    var q := [OptChar(c)] + p;
    assert q[0] == OptChar(c) && q[1..] == p;
    assert ([c] + s)[..1] == [c] && ([c] + s)[1..] == s;
  }

  /** `c?` takes nothing when the path does not continue with its character. */
  lemma OptCharSkipped(c: char, p: seq<Atom>, s: string)
    requires s == [] || s[0] != c
    ensures Matches([OptChar(c)] + p, s) ==
      if Matches(p, s).Some? then Some([""] + Matches(p, s).value) else None
  {
    var q := [OptChar(c)] + p;
    assert q[0] == OptChar(c) && q[1..] == p;
    assert s[..0] == "" && s[0..] == s;
  }

  lemma ConcatThree(x: string, y: string, z: string)
    ensures Concat([x, y, z]) == x + y + z
  {
    assert [z][1..] == [];
    assert Concat([z]) == z + Concat([]) == z;
    assert [y, z][1..] == [z];
    assert Concat([y, z]) == y + z;
    assert [x, y, z][1..] == [y, z];
  }

  /** What a cut of one segment by `([^/]+)d([^/]+)` looks like. */
  lemma ThreePieces(d: char, s: string, ps: seq<string>)
    requires Fits([Plus, Char(d), Plus], ps, s)
    ensures |ps| == 3 && ps[1] == [d] && |ps[0]| > 0 && |ps[2]| > 0
    ensures s == ps[0] + [d] + ps[2]
  {
    var p := [Plus, Char(d), Plus];
    assert FitsAtom(p[0], ps[0]) && FitsAtom(p[1], ps[1]) && FitsAtom(p[2], ps[2]);
    assert ps == [ps[0], ps[1], ps[2]];
    ConcatThree(ps[0], ps[1], ps[2]);
  }

  lemma NoLaterDelimiter(a: string, d: char, b: string, x: string, y: string)
    requires a + [d] + b == x + [d] + y
    requires |y| > 0 && d !in b
    ensures |x| <= |a|
  {
    var s := x + [d] + y;
    assert s[|x|] == d;
    assert forall i | |a| < i < |s| :: s[i] == b[i - |a| - 1];
  }

  /**
   * `([^/]+)d([^/]+)` on one segment: the first group runs up to the LAST `d`,
   * since the greedy first group gives characters back only until the
   * delimiter and a non-empty second group fit.
   */
  lemma LastDelimiterSplit(d: char, a: string, b: string)
    requires d != '/' && '/' !in a && '/' !in b
    requires |a| > 0 && |b| > 0 && d !in b
    ensures Matches([Plus, Char(d), Plus], a + [d] + b) == Some([a, [d], b])
  {
    var p := [Plus, Char(d), Plus];
    var s := a + [d] + b;
    var qs := [a, [d], b];
    ConcatThree(a, [d], b);
    assert FitsAtom(p[0], qs[0]) && FitsAtom(p[1], qs[1]) && FitsAtom(p[2], qs[2]);
    assert Fits(p, qs, s);
    MatchesGreediest(p, s, qs);
    MatchesSound(p, s);
    var ps := Matches(p, s).value;
    ThreePieces(d, s, ps);
    NoLaterDelimiter(a, d, b, ps[0], ps[2]);
    assert |ps[0]| == |a|;
    assert ps[0] == s[..|a|] == a;
    assert ps[2] == s[|a| + 1..] == b;
    assert ps == qs;
  }

  lemma {:induction false} CapturesAppend(p1: seq<Atom>, ps1: seq<string>, p2: seq<Atom>, ps2: seq<string>)
    requires |ps1| == |p1| && |ps2| == |p2|
    ensures Captures(p1 + p2, ps1 + ps2) == Captures(p1, ps1) + Captures(p2, ps2)
  {
    if p1 != [] {
      assert (p1 + p2)[0] == p1[0] && (ps1 + ps2)[0] == ps1[0];
      assert (p1 + p2)[1..] == p1[1..] + p2 && (ps1 + ps2)[1..] == ps1[1..] + ps2;
      CapturesAppend(p1[1..], ps1[1..], p2, ps2);
    } else {
      assert p1 + p2 == p2 && ps1 + ps2 == ps2;
    }
  }

  /** Literal atoms capture nothing. */
  lemma {:induction false} CapturesOfLiterals(a: string)
    ensures Captures(Chars(a), Singles(a)) == []
  {
    if a != [] {
      assert Chars(a)[1..] == Chars(a[1..]) && Singles(a)[1..] == Singles(a[1..]);
      CapturesOfLiterals(a[1..]);
    }
  }
}
