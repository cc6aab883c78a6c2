/**
 * The JS string operations the router relies on: `indexOf`, `split` with a
 * non-empty string separator, `startsWith`, `slice(k)` and `substring(a, b)`,
 * and the `\w` character class of JS regular expressions.
 */
module Strings {
  import opened Wrappers

  /** `\w`: ASCII letters, digits and `_`. */
  predicate IsWordChar(c: char)
  {
    ('a' <= c <= 'z') || ('A' <= c <= 'Z') || ('0' <= c <= '9') || c == '_'
  }

  /** Length of the longest prefix of `s` made of `\w` characters. */
  function WordRun(s: string): (n: nat)
    ensures n <= |s|
    ensures forall i | 0 <= i < n :: IsWordChar(s[i])
    ensures n < |s| ==> !IsWordChar(s[n])
  {
    if |s| == 0 || !IsWordChar(s[0]) then 0 else 1 + WordRun(s[1..])
  }

  /** The word run of `w + rest` is `w` when `w` is all word characters and `rest` does not continue it. */
  lemma {:induction false} WordRunOfConcat(w: string, rest: string)
    requires forall i | 0 <= i < |w| :: IsWordChar(w[i])
    requires rest == [] || !IsWordChar(rest[0])
    ensures WordRun(w + rest) == |w|
  {
    if |w| > 0 {
      assert (w + rest)[1..] == w[1..] + rest;
      WordRunOfConcat(w[1..], rest);
    } else {
      assert w + rest == rest;
    }
  }

  /** `s.startsWith(prefix)`. */
  predicate StartsWith(s: string, prefix: string)
  {
    |prefix| <= |s| && s[..|prefix|] == prefix
  }

  /** `pat` occurs in `s` at index `j`. */
  predicate OccursAt(s: string, pat: string, j: int)
  {
    0 <= j && j + |pat| <= |s| && s[j..j + |pat|] == pat
  }

  /** The first index at which `pat` occurs in `s` (`s.indexOf(pat)`, absent as `None`). */
  function Find(s: string, pat: string): (r: Option<nat>)
    requires |pat| > 0
    ensures r.Some? ==> OccursAt(s, pat, r.value)
    ensures r.Some? ==> forall j | 0 <= j < r.value :: !OccursAt(s, pat, j)
    ensures r.None? ==> forall j :: !OccursAt(s, pat, j)
  {
    if |s| < |pat| then None
    else if s[..|pat|] == pat then Some(0)
    else
      OccursShift(s, pat);
      match Find(s[1..], pat)
      case None => None
      case Some(k) => Some(k + 1)
  }

  /** An occurrence past the first character is an occurrence in the rest, one place earlier. */
  lemma OccursShift(s: string, pat: string)
    requires |s| > 0
    ensures forall j | 1 <= j :: OccursAt(s, pat, j) <==> OccursAt(s[1..], pat, j - 1)
  {
    forall j | 1 <= j
      ensures OccursAt(s, pat, j) <==> OccursAt(s[1..], pat, j - 1)
    {
      if j + |pat| <= |s| {
        var a, b := s[j..j + |pat|], s[1..][j - 1..j - 1 + |pat|];
        assert |a| == |b| && forall t | 0 <= t < |a| :: a[t] == b[t];
        assert a == b;
      }
    }
  }

  /** `s.indexOf(pat)` with the JS result -1 for absence. */
  function IndexOf(s: string, pat: string): (r: int)
    requires |pat| > 0
    ensures r == -1 || (0 <= r && Find(s, pat) == Some(r))
    ensures r == -1 <==> Find(s, pat).None?
  {
    match Find(s, pat)
    case None => -1
    case Some(i) => i
  }

  /** `s.split(sep)` for a non-empty string separator. */
  function SplitOn(s: string, sep: string): (parts: seq<string>)
    requires |sep| > 0
    ensures |parts| >= 1
    ensures Find(s, sep).None? <==> |parts| == 1
    decreases |s|
  {
    match Find(s, sep)
    case None => [s]
    case Some(i) => [s[..i]] + SplitOn(s[i + |sep|..], sep)
  }

  /** `parts.join(sep)` */
  function Join(parts: seq<string>, sep: string): string
  {
    if |parts| == 0 then ""
    else if |parts| == 1 then parts[0]
    else parts[0] + sep + Join(parts[1..], sep)
  }

  /** Joining a non-empty list after a first part puts one separator between them. */
  lemma JoinCons(p: string, ps: seq<string>, sep: string)
    requires |ps| > 0
    ensures Join([p] + ps, sep) == p + sep + Join(ps, sep)
  {
    assert ([p] + ps)[1..] == ps;
  }

  /** Cutting a string at two positions and gluing the pieces gives it back. */
  lemma Cut3(s: string, i: nat, j: nat)
    requires i <= j <= |s|
    ensures s == s[..i] + s[i..j] + s[j..]
  {
  }

  /** Splitting and joining again gives back the string. */
  lemma {:induction false} JoinSplit(s: string, sep: string)
    requires |sep| > 0
    ensures Join(SplitOn(s, sep), sep) == s
    decreases |s|
  {
    var f := Find(s, sep);
    if f.Some? {
      var i := f.value;
      var rest := s[i + |sep|..];
      JoinSplit(rest, sep);
      JoinCons(s[..i], SplitOn(rest, sep), sep);
      assert s[i..i + |sep|] == sep;
      Cut3(s, i, i + |sep|);
    }
  }

  /** `sep` occurs nowhere in `s`. */
  ghost predicate Lacks(s: string, sep: string)
  {
    forall j :: !OccursAt(s, sep, j)
  }

  /** The text before the first occurrence of `sep` does not contain `sep`. */
  lemma NoneBeforeFirst(s: string, sep: string, i: nat)
    requires |sep| > 0 && Find(s, sep) == Some(i)
    ensures Lacks(s[..i], sep)
  {
    forall j | OccursAt(s[..i], sep, j)
      ensures false
    {
      assert s[..i][j..j + |sep|] == s[j..j + |sep|];
      assert OccursAt(s, sep, j);
    }
  }

  /** No piece of a split contains the separator. */
  lemma {:induction false} SplitPiecesAvoidSeparator(s: string, sep: string, k: nat)
    requires |sep| > 0
    requires k < |SplitOn(s, sep)|
    ensures Lacks(SplitOn(s, sep)[k], sep)
    decreases |s|
  {
    var f := Find(s, sep);
    if f.Some? {
      var i := f.value;
      var rest := s[i + |sep|..];
      var tail := SplitOn(rest, sep);
      assert SplitOn(s, sep) == [s[..i]] + tail;
      if k == 0 {
        NoneBeforeFirst(s, sep, i);
      } else {
        SplitPiecesAvoidSeparator(rest, sep, k - 1);
        assert SplitOn(s, sep)[k] == tail[k - 1];
      }
    }
  }

  /** Splitting `a + c + rest` on the character `c`, with `c` not in `a`, puts `a` first and splits `rest` after it. */
  lemma SplitAtFirstChar(a: string, c: char, rest: string)
    requires c !in a
    ensures SplitOn(a + [c] + rest, [c]) == [a] + SplitOn(rest, [c])
  {
    var s := a + [c] + rest;
    assert OccursAt(s, [c], |a|) by { assert s[|a|] == c; }
    forall j | 0 <= j < |a|
      ensures !OccursAt(s, [c], j)
    {
      assert s[j] == a[j];
    }
    assert Find(s, [c]) == Some(|a|);
    assert s[..|a|] == a;
    assert s[|a| + 1..] == rest;
  }

  /** Splitting a string that does not contain the character `c` on `c` gives the string alone. */
  lemma SplitWithoutChar(s: string, c: char)
    requires c !in s
    ensures SplitOn(s, [c]) == [s]
  {
    forall j | 0 <= j < |s|
      ensures !OccursAt(s, [c], j)
    {
      assert s[j..j + 1][0] == s[j] && s[j] in s;
    }
  }

  /** `s.slice(k)` for `k >= 0`: the characters from index `k` on, `""` past the end. */
  function SliceFrom(s: string, k: nat): (r: string)
    ensures k < |s| ==> |r| == |s| - k && r == s[k..]
    ensures |s| <= k ==> r == ""
  {
    if k < |s| then s[k..] else ""
  }

  /** `x` moved into `[0, n]`: negative ends become 0 and ends past `n` become `n`. */
  function Clamp(x: int, n: nat): (r: nat)
    ensures r <= n
    ensures 0 <= x <= n ==> r == x
    ensures x < 0 ==> r == 0
    ensures n < x ==> r == n
  {
    if x < 0 then 0 else if x > n then n else x
  }

  /**
   * `s.substring(a, b)`: both ends are clamped to `[0, |s|]` and swapped when
   * the start exceeds the end.
   */
  function Substring(s: string, a: int, b: int): (r: string)
    ensures 0 <= a <= b <= |s| ==> r == s[a..b]
    ensures 0 <= b <= a <= |s| ==> r == s[b..a]
    ensures |r| <= |s|
  {
    var x := Clamp(a, |s|);
    var y := Clamp(b, |s|);
    if x <= y then s[x..y] else s[y..x]
  }

  /**
   * Out-of-range ends of `substring` act as the nearest end of the string,
   * and the order of the two ends does not matter.
   */
  lemma SubstringClamped(s: string, a: int, b: int)
    ensures Substring(s, a, b) == Substring(s, Clamp(a, |s|), Clamp(b, |s|))
    ensures Substring(s, a, b) == Substring(s, b, a)
    ensures a < 0 ==> Substring(s, a, b) == Substring(s, 0, b)
    ensures |s| < b ==> Substring(s, a, b) == Substring(s, a, |s|)
  {
  }
}
