/**
 * The three routines of Go's `strings` package that the whitespace
 * normaliser is built from, each in the one-character form in which it is
 * called there: the string to replace and the cutset are always a single
 * character.
 */
module Strings {

  /** `strings.ReplaceAll(s, [from], [to])`: every occurrence of `from` becomes `to`. */
  function ReplaceAll(s: string, from: char, to: char): (r: string)
    ensures |r| == |s|
    ensures forall i :: 0 <= i < |s| ==> r[i] == (if s[i] == from then to else s[i])
  {
    if s == [] then []
    else [if s[0] == from then to else s[0]] + ReplaceAll(s[1..], from, to)
  }

  /** `strings.TrimLeft(s, [c])`: drops the longest prefix made only of `c`. */
  function TrimLeft(s: string, c: char): (r: string)
    ensures |r| <= |s| && r == s[|s| - |r|..]
    ensures forall i :: 0 <= i < |s| - |r| ==> s[i] == c
    ensures r != [] ==> r[0] != c
  {
    if s != [] && s[0] == c then TrimLeft(s[1..], c) else s
  }

  /** `strings.TrimRight(s, [c])`: drops the longest suffix made only of `c`. */
  function TrimRight(s: string, c: char): (r: string)
    ensures |r| <= |s| && r == s[..|r|]
    ensures forall i :: |r| <= i < |s| ==> s[i] == c
    ensures r != [] ==> r[|r| - 1] != c
  {
    if s != [] && s[|s| - 1] == c then TrimRight(s[..|s| - 1], c) else s
  }

  /** A string that consists of `c` only (possibly the empty one). */
  predicate AllOf(s: string, c: char)
  {
    forall i :: 0 <= i < |s| ==> s[i] == c
  }

  /** Two runs of `c` make one. */
  lemma AllOfConcat(s: string, t: string, c: char)
    requires AllOf(s, c) && AllOf(t, c)
    ensures AllOf(s + t, c)
  {
  }

  /** TrimLeft is determined by its shape: a run of `c`, then a rest that does not start with `c`. */
  lemma {:induction false} TrimLeftUnique(pre: string, rest: string, c: char)
    requires AllOf(pre, c)
    requires rest != [] ==> rest[0] != c
    ensures TrimLeft(pre + rest, c) == rest
  {
    if pre != [] {
      assert (pre + rest)[1..] == pre[1..] + rest;
      TrimLeftUnique(pre[1..], rest, c);
    } else {
      assert pre + rest == rest;
    }
  }

  /** TrimRight is determined by its shape: a rest that does not end with `c`, then a run of `c`. */
  lemma {:induction false} TrimRightUnique(rest: string, post: string, c: char)
    requires AllOf(post, c)
    requires rest != [] ==> rest[|rest| - 1] != c
    ensures TrimRight(rest + post, c) == rest
  {
    if post != [] {
      var s := rest + post;
      assert s[..|s| - 1] == rest + post[..|post| - 1];
      TrimRightUnique(rest, post[..|post| - 1], c);
    } else {
      assert rest + post == rest;
    }
  }

  /** `n` copies of `c`. */
  function Repeat(c: char, n: nat): (r: string)
    ensures |r| == n && AllOf(r, c)
  {
    if n == 0 then [] else [c] + Repeat(c, n - 1)
  }

  /** A run of `c` is `Repeat` of its length. */
  lemma RepeatOf(s: string, c: char)
    requires AllOf(s, c)
    ensures s == Repeat(c, |s|)
  {
    var r := Repeat(c, |s|);
    assert forall i :: 0 <= i < |s| ==> s[i] == r[i];
  }

  /** TrimLeft removes a run of `c` and nothing else. */
  lemma TrimLeftSplit(s: string, c: char)
    ensures s == Repeat(c, |s| - |TrimLeft(s, c)|) + TrimLeft(s, c)
  {
    var l := TrimLeft(s, c);
    RepeatOf(s[..|s| - |l|], c);
    assert s == s[..|s| - |l|] + l;
  }

  /** TrimRight removes a run of `c` and nothing else. */
  lemma TrimRightSplit(s: string, c: char)
    ensures s == TrimRight(s, c) + Repeat(c, |s| - |TrimRight(s, c)|)
  {
    var r := TrimRight(s, c);
    RepeatOf(s[|r|..], c);
    assert s == r + s[|r|..];
  }

  /** Trimming both ends removes `a` copies of `c` in front and `b` behind, and nothing else. */
  lemma TrimBoth(s: string, c: char) returns (a: nat, b: nat)
    ensures s == Repeat(c, a) + TrimRight(TrimLeft(s, c), c) + Repeat(c, b)
  {
    var l := TrimLeft(s, c);
    var r := TrimRight(l, c);
    a := |s| - |l|;
    b := |l| - |r|;
    TrimLeftSplit(s, c);
    TrimRightSplit(l, c);
    ConcatAssoc(s, Repeat(c, a), l, r, Repeat(c, b));
  }

  lemma ConcatAssoc(s: string, p: string, l: string, r: string, q: string)
    requires s == p + l && l == r + q
    ensures s == p + r + q
  {
  }
}
