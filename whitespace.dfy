/**
 * The whitespace normaliser: the three values of the `whiteSpace` facet of
 * XML Schema Part 2 (Datatypes), section 4.3.6, as this library implements
 * them. Collapse here only trims the ends; it does not squeeze interior runs
 * of spaces, unlike the standard.
 */
module WhiteSpace {
  import opened Strings

  /** Tab, line feed and carriage return: the characters that replace turns into a space. */
  predicate IsReplaced(c: char)
  {
    c == '\t' || c == '\n' || c == '\r'
  }

  /** No tab, line feed or carriage return anywhere in `s`. */
  predicate NoneReplaced(s: string)
  {
    forall i :: 0 <= i < |s| ==> !IsReplaced(s[i])
  }

  /** `preserve`: the string is returned as it is. */
  function WhiteSpacePreserve(s: string): (r: string)
    ensures r == s
  {
    s
  }

  /** `replace`: each tab, line feed and carriage return becomes one space. */
  function WhiteSpaceReplace(s: string): (r: string)
    ensures |r| == |s|
    ensures forall i :: 0 <= i < |s| ==> r[i] == (if IsReplaced(s[i]) then ' ' else s[i])
    ensures NoneReplaced(r)
  {
    var s1 := ReplaceAll(s, '\t', ' ');
    var s2 := ReplaceAll(s1, '\n', ' ');
    ReplaceAll(s2, '\r', ' ')
  }

  /** `collapse`: replace, then drop the leading and the trailing spaces. */
  function WhiteSpaceCollapse(s: string): (r: string)
    ensures |r| <= |s|
    ensures NoneReplaced(r)
    ensures r != [] ==> r[0] != ' ' && r[|r| - 1] != ' '
  {
    var s1 := WhiteSpaceReplace(s);
    var s2 := TrimLeft(s1, ' ');
    var s3 := TrimRight(s2, ' ');
    NoneReplacedSlice(s1, |s1| - |s2|, |s1|);
    NoneReplacedSlice(s2, 0, |s3|);
    s3
  }

  /** A slice of a string without tab, line feed and carriage return has none either. */
  lemma NoneReplacedSlice(s: string, i: nat, j: nat)
    requires i <= j <= |s| && NoneReplaced(s)
    ensures NoneReplaced(s[i..j])
  {
    assert forall k :: 0 <= k < j - i ==> s[i..j][k] == s[i + k];
  }

  /** Replace is idempotent. */
  lemma {:induction false} ReplaceIdempotent(s: string)
    ensures WhiteSpaceReplace(WhiteSpaceReplace(s)) == WhiteSpaceReplace(s)
  {
    var r := WhiteSpaceReplace(s);
    var rr := WhiteSpaceReplace(r);
    assert forall i :: 0 <= i < |r| ==> rr[i] == r[i];
  }

  /** A string without tab, line feed or carriage return is a fixed point of replace, and only such a string is. */
  lemma ReplaceFixedPoint(s: string)
    ensures WhiteSpaceReplace(s) == s <==> NoneReplaced(s)
  {
    if NoneReplaced(s) {
      var r := WhiteSpaceReplace(s);
      assert forall i :: 0 <= i < |s| ==> r[i] == s[i];
    }
  }

  /**
   * Collapse only removes spaces at the two ends of the replaced string:
   * `a` of them in front and `b` behind.
   */
  lemma CollapseTrimsEnds(s: string) returns (a: nat, b: nat)
    ensures WhiteSpaceReplace(s) == Repeat(' ', a) + WhiteSpaceCollapse(s) + Repeat(' ', b)
  {
    a, b := TrimBoth(WhiteSpaceReplace(s), ' ');
  }

  /**
   * The shape is also a definition: whenever the replaced string is a run of
   * spaces, then `mid`, then a run of spaces, and `mid` neither starts nor
   * ends with a space, collapse returns exactly `mid`.
   */
  lemma {:induction false} CollapseUnique(s: string, a: nat, mid: string, b: nat)
    requires WhiteSpaceReplace(s) == Repeat(' ', a) + mid + Repeat(' ', b)
    requires mid != [] ==> mid[0] != ' ' && mid[|mid| - 1] != ' '
    ensures WhiteSpaceCollapse(s) == mid
  {
    var t := WhiteSpaceReplace(s);
    if mid == [] {
      assert t == Repeat(' ', a) + Repeat(' ', b);
      AllOfConcat(Repeat(' ', a), Repeat(' ', b), ' ');
      assert t == t + [];
      TrimLeftUnique(t, [], ' ');
      TrimRightUnique([], [], ' ');
    } else {
      assert t == Repeat(' ', a) + (mid + Repeat(' ', b));
      TrimLeftUnique(Repeat(' ', a), mid + Repeat(' ', b), ' ');
      TrimRightUnique(mid, Repeat(' ', b), ' ');
    }
  }

  /** Collapse is idempotent. */
  lemma CollapseIdempotent(s: string)
    ensures WhiteSpaceCollapse(WhiteSpaceCollapse(s)) == WhiteSpaceCollapse(s)
  {
    var c := WhiteSpaceCollapse(s);
    ReplaceFixedPoint(c);
    assert c == Repeat(' ', 0) + c + Repeat(' ', 0);
    CollapseUnique(c, 0, c, 0);
  }

  /** The fixed points of collapse are exactly the strings it can produce. */
  lemma CollapseFixedPoint(s: string)
    ensures WhiteSpaceCollapse(s) == s <==> NoneReplaced(s) && (s != [] ==> s[0] != ' ' && s[|s| - 1] != ' ')
  {
    if NoneReplaced(s) && (s != [] ==> s[0] != ' ' && s[|s| - 1] != ' ') {
      ReplaceFixedPoint(s);
      assert s == Repeat(' ', 0) + s + Repeat(' ', 0);
      CollapseUnique(s, 0, s, 0);
    }
  }

  /** Collapsing a replaced string is collapsing the original, and replacing a collapsed one changes nothing. */
  lemma CollapseAbsorbsReplace(s: string)
    ensures WhiteSpaceCollapse(WhiteSpaceReplace(s)) == WhiteSpaceCollapse(s)
    ensures WhiteSpaceReplace(WhiteSpaceCollapse(s)) == WhiteSpaceCollapse(s)
  {
    ReplaceIdempotent(s);
    ReplaceFixedPoint(WhiteSpaceCollapse(s));
  }

  /** A string of whitespace only (spaces, tabs, line feeds, carriage returns) collapses to the empty string. */
  lemma CollapseAllWhiteSpace(s: string)
    requires forall i :: 0 <= i < |s| ==> s[i] == ' ' || IsReplaced(s[i])
    ensures WhiteSpaceCollapse(s) == []
  {
    var t := WhiteSpaceReplace(s);
    RepeatOf(t, ' ');
    assert t == Repeat(' ', |t|) + [] + Repeat(' ', 0);
    CollapseUnique(s, |t|, [], 0);
  }

  /** Interior runs of spaces survive collapse. */
  lemma CollapseKeepsInteriorSpaces()
    ensures WhiteSpaceCollapse("a  b") == "a  b"
  {
    CollapseFixedPoint("a  b");
  }

  /** Replace changes each tab, line feed and carriage return in place. */
  lemma ReplaceExample(s: string)
    requires s == "\t a \n\r b  "
    ensures WhiteSpaceReplace(s) == "  a    b  "
  {
    var t := WhiteSpaceReplace(s);
    assert forall i :: 0 <= i < |t| ==> t[i] == "  a    b  "[i];
  }

  /** Tabs, line feeds and carriage returns inside become spaces that stay; only the ends are trimmed. */
  lemma CollapseTrimsOnlyEnds(s: string)
    requires s == "\t a \n\r b  "
    ensures WhiteSpaceCollapse(s) == "a    b"
  {
    ReplaceExample(s);
    assert Repeat(' ', 2) == "  ";
    assert "  a    b  " == Repeat(' ', 2) + "a    b" + Repeat(' ', 2);
    CollapseUnique(s, 2, "a    b", 2);
  }
}
