/**
 * String primitives of the Java and JavaScript runtimes that the engine's code
 * leans on: prefix and substring search, case folding, literal replacement,
 * splitting and trimming. Strings are `seq<char>`: sequences of code units
 * below U+D800 or of Unicode scalar values, without surrogate pairs.
 */
module Text {

  predicate StartsWith(s: string, p: string) {
    |p| <= |s| && s[..|p|] == p
  }

  predicate EndsWith(s: string, p: string) {
    |p| <= |s| && s[|s| - |p|..] == p
  }

  /** `p` occurs in `s` starting at index `i`. */
  predicate OccursAt(s: string, p: string, i: int) {
    0 <= i && i + |p| <= |s| && s[i..i + |p|] == p
  }

  /** Java `String.contains`, JavaScript `indexOf(p) != -1`. */
  predicate Contains(s: string, p: string) {
    exists i :: 0 <= i <= |s| - |p| && OccursAt(s, p, i)
  }

  /** First occurrence of `p` in `s` at or after `k`, or -1. */
  function IndexFrom(s: string, p: string, k: nat): (r: int)
    ensures r == -1 || (k <= r && OccursAt(s, p, r))
    ensures forall j :: k <= j && (r == -1 || j < r) ==> !OccursAt(s, p, j)
    decreases |s| - k
  {
    if k + |p| > |s| then -1
    else if s[k..k + |p|] == p then k
    else IndexFrom(s, p, k + 1)
  }

  /** Java and JavaScript `indexOf`: the first occurrence, -1 when there is none. */
  function IndexOf(s: string, p: string): (r: int)
    ensures r == -1 <==> !Contains(s, p)
    ensures r != -1 ==> OccursAt(s, p, r)
    ensures forall j :: 0 <= j < r ==> !OccursAt(s, p, j)
  {
    IndexFrom(s, p, 0)
  }

  /** Java `lastIndexOf`: the last occurrence of `p` in `s`, or -1. */
  function LastIndexOf(s: string, p: string): (r: int)
    ensures r == -1 <==> !Contains(s, p)
    ensures r != -1 ==> OccursAt(s, p, r)
    ensures forall j :: r < j ==> !OccursAt(s, p, j)
  {
    LastIndexBelow(s, p, |s| - |p|)
  }

  /** Last occurrence of `p` in `s` at or before `k`, or -1. */
  function LastIndexBelow(s: string, p: string, k: int): (r: int)
    requires k <= |s| - |p|
    ensures r == -1 || (r <= k && OccursAt(s, p, r))
    ensures forall j :: r < j <= k ==> !OccursAt(s, p, j)
    ensures r == -1 ==> forall j :: j <= k ==> !OccursAt(s, p, j)
    decreases k + 1
  {
    if k < 0 then -1
    else if s[k..k + |p|] == p then k
    else LastIndexBelow(s, p, k - 1)
  }

  /** Lower-casing of one character: ASCII and Latin-1 capitals. */
  function LowerChar(c: char): char {
    if 'A' <= c <= 'Z' then (c as int + 32) as char
    else if '\U{C0}' <= c <= '\U{DE}' && c != '\U{D7}' then (c as int + 32) as char
    else c
  }

  /**
   * `toLowerCase()` of Java and JavaScript, restricted to ASCII and Latin-1
   * capitals and taken character by character.
   */
  function Lower(s: string): (r: string)
    ensures |r| == |s|
    ensures forall i :: 0 <= i < |s| ==> r[i] == LowerChar(s[i])
  {
    seq(|s|, i requires 0 <= i < |s| => LowerChar(s[i]))
  }

  lemma LowerIdempotent(s: string)
    ensures Lower(Lower(s)) == Lower(s)
  {
  }

  lemma LowerAppend(a: string, b: string)
    ensures Lower(a + b) == Lower(a) + Lower(b)
  {
  }

  /** Java `equalsIgnoreCase`, restricted to the case pairs `LowerChar` knows. */
  predicate EqualsIgnoreCase(a: string, b: string) {
    Lower(a) == Lower(b)
  }

  /**
   * Java `replaceAll` with a pattern free of regular-expression metacharacters:
   * occurrences of `pat` are replaced left to right, without overlapping.
   */
  function ReplaceAll(s: string, pat: string, rep: string): (r: string)
    requires |pat| > 0
    ensures !Contains(s, pat) ==> r == s
    decreases |s|
  {
    var i := IndexOf(s, pat);
    if i < 0 then s else s[..i] + rep + ReplaceAll(s[i + |pat|..], pat, rep)
  }

  /**
   * All the fields of `s` between occurrences of `d`, found left to right:
   * JavaScript `split(d)` with a string separator.
   */
  function SplitAll(s: string, d: string): (r: seq<string>)
    requires |d| > 0
    ensures |r| >= 1
    ensures !Contains(s, d) ==> r == [s]
    decreases |s|
  {
    var i := IndexOf(s, d);
    if i < 0 then [s] else [s[..i]] + SplitAll(s[i + |d|..], d)
  }

  /** Joins fields with a separator: JavaScript `join`. */
  function Join(parts: seq<string>, d: string): string {
    if |parts| == 0 then ""
    else if |parts| == 1 then parts[0]
    else parts[0] + d + Join(parts[1..], d)
  }

  lemma JoinCons(a: string, parts: seq<string>, d: string)
    requires |parts| >= 1
    ensures Join([a] + parts, d) == a + d + Join(parts, d)
  {
    assert ([a] + parts)[1..] == parts;
  }

  /** A string is the text before an occurrence, the occurrence, and the text after it. */
  lemma Around(s: string, p: string, i: int)
    requires OccursAt(s, p, i)
    ensures s == s[..i] + p + s[i + |p|..]
  {
    assert s == s[..i] + s[i..i + |p|] + s[i + |p|..];
  }

  lemma SplitAllAt(s: string, d: string)
    requires |d| > 0 && Contains(s, d)
    ensures OccursAt(s, d, IndexOf(s, d))
    ensures SplitAll(s, d) == [s[..IndexOf(s, d)]] + SplitAll(s[IndexOf(s, d) + |d|..], d)
  {
  }

  /** Where the pattern first occurs, `replaceAll` writes the replacement and carries on after it. */
  lemma ReplaceAllAt(s: string, pat: string, rep: string)
    requires |pat| > 0 && Contains(s, pat)
    ensures ReplaceAll(s, pat, rep) == s[..IndexOf(s, pat)] + rep + ReplaceAll(s[IndexOf(s, pat) + |pat|..], pat, rep)
  {
  }

  /** One step of `ReplaceAllSplitJoin`: if it holds after the first occurrence, it holds for `s`. */
  lemma ReplaceAllSplitJoinStep(s: string, pat: string, rep: string)
    requires |pat| > 0 && Contains(s, pat)
    requires var rest := s[IndexOf(s, pat) + |pat|..];
             ReplaceAll(rest, pat, rep) == Join(SplitAll(rest, pat), rep)
    ensures ReplaceAll(s, pat, rep) == Join(SplitAll(s, pat), rep)
  {
    var i := IndexOf(s, pat);
    var rest := s[i + |pat|..];
    SplitAllAt(s, pat);
    ReplaceAllAt(s, pat, rep);
    JoinCons(s[..i], SplitAll(rest, pat), rep);
  }

  /** `replaceAll` is splitting on the pattern and joining with the replacement. */
  lemma {:induction false} ReplaceAllSplitJoin(s: string, pat: string, rep: string)
    requires |pat| > 0
    ensures ReplaceAll(s, pat, rep) == Join(SplitAll(s, pat), rep)
    decreases |s|
  {
    if Contains(s, pat) {
      ReplaceAllSplitJoin(s[IndexOf(s, pat) + |pat|..], pat, rep);
      ReplaceAllSplitJoinStep(s, pat, rep);
    }
  }

  /** Joining the fields of a split with the separator rebuilds the string. */
  lemma {:induction false} JoinSplit(s: string, d: string)
    requires |d| > 0
    ensures Join(SplitAll(s, d), d) == s
    decreases |s|
  {
    if Contains(s, d) {
      var i := IndexOf(s, d);
      var rest := s[i + |d|..];
      SplitAllAt(s, d);
      JoinSplit(rest, d);
      JoinCons(s[..i], SplitAll(rest, d), d);
      Around(s, d, i);
    }
  }

  /** Splitting a join of separator-free fields on a one-character separator gives the fields back. */
  lemma {:induction false} SplitJoin(parts: seq<string>, d: string)
    requires |d| == 1 && |parts| >= 1
    requires forall k :: 0 <= k < |parts| ==> !Contains(parts[k], d)
    ensures SplitAll(Join(parts, d), d) == parts
    decreases |parts|
  {
    if |parts| > 1 {
      var s := Join(parts, d);
      var rest := Join(parts[1..], d);
      JoinCons(parts[0], parts[1..], d);
      assert [parts[0]] + parts[1..] == parts;
      assert s == parts[0] + d + rest;
      assert OccursAt(s, d, |parts[0]|);
      assert forall j :: 0 <= j < |parts[0]| ==> !OccursAt(s, d, j) by {
        forall j | 0 <= j < |parts[0]|
          ensures !OccursAt(s, d, j)
        {
          if OccursAt(s, d, j) {
            assert s[j] == parts[0][j];
            assert OccursAt(parts[0], d, j);
          }
        }
      }
      assert IndexOf(s, d) == |parts[0]|;
      assert s[|parts[0]| + 1..] == rest;
      assert s[..|parts[0]|] == parts[0];
      SplitAllAt(s, d);
      SplitJoin(parts[1..], d);
    }
  }

  /** Drops trailing empty fields, as Java's `split` does with a zero limit. */
  function DropTrailingEmpty(xs: seq<string>): (r: seq<string>)
    ensures |r| <= |xs| && r == xs[..|r|]
    ensures |r| > 0 ==> r[|r| - 1] != ""
    ensures forall k :: |r| <= k < |xs| ==> xs[k] == ""
  {
    if |xs| == 0 then []
    else if xs[|xs| - 1] == "" then DropTrailingEmpty(xs[..|xs| - 1])
    else xs
  }

  /**
   * Java `s.split(d)` for a literal separator: when `d` does not occur the
   * result is `[s]` (so `"".split(d)` is `[""]`); otherwise trailing empty
   * fields are removed.
   */
  function JavaSplit(s: string, d: string): (r: seq<string>)
    requires |d| > 0
    ensures !Contains(s, d) ==> r == [s]
    ensures Contains(s, d) ==> r == DropTrailingEmpty(SplitAll(s, d))
  {
    if IndexOf(s, d) < 0 then [s] else DropTrailingEmpty(SplitAll(s, d))
  }

  /** Characters matched by `\s` in a JavaScript regular expression. */
  predicate IsJsSpace(c: char) {
    c == ' ' || c == '\t' || c == '\n' || c == '\U{0B}' || c == '\U{0C}' || c == '\r'
    || c == '\U{A0}' || c == '\U{1680}' || ('\U{2000}' <= c <= '\U{200A}')
    || c == '\U{2028}' || c == '\U{2029}' || c == '\U{202F}' || c == '\U{205F}'
    || c == '\U{3000}' || c == '\U{FEFF}'
  }

  function TrimStart(s: string): (r: string)
    ensures |r| <= |s| && r == s[|s| - |r|..]
    ensures |r| > 0 ==> !IsJsSpace(r[0])
    ensures forall k :: 0 <= k < |s| - |r| ==> IsJsSpace(s[k])
  {
    if |s| > 0 && IsJsSpace(s[0]) then TrimStart(s[1..]) else s
  }

  function TrimEnd(s: string): (r: string)
    ensures |r| <= |s| && r == s[..|r|]
    ensures |r| > 0 ==> !IsJsSpace(r[|r| - 1])
    ensures forall k :: |r| <= k < |s| ==> IsJsSpace(s[k])
  {
    if |s| > 0 && IsJsSpace(s[|s| - 1]) then TrimEnd(s[..|s| - 1]) else s
  }

  /** `s[i..j]` is `s` with only white space cut off before and after it. */
  predicate SpaceAround(s: string, i: int, j: int) {
    0 <= i <= j <= |s|
    && (forall k :: 0 <= k < i ==> IsJsSpace(s[k]))
    && (forall k :: j <= k < |s| ==> IsJsSpace(s[k]))
  }

  /** `s.replace(/^\s+|\s+$/g, '')`: leading and trailing white space removed. */
  function Trim(s: string): (r: string)
    ensures |r| > 0 ==> !IsJsSpace(r[0]) && !IsJsSpace(r[|r| - 1])
    ensures exists i, j :: SpaceAround(s, i, j) && r == s[i..j]
  {
    var t := TrimStart(s);
    var u := TrimEnd(t);
    TrimSpan(s, t, u);
    u
  }

  /** The witnesses for `Trim`'s slice: the white space `TrimStart` and `TrimEnd` cut off. */
  lemma TrimSpan(s: string, t: string, u: string)
    requires |t| <= |s| && t == s[|s| - |t|..] && forall k :: 0 <= k < |s| - |t| ==> IsJsSpace(s[k])
    requires |u| <= |t| && u == t[..|u|] && forall k :: |u| <= k < |t| ==> IsJsSpace(t[k])
    ensures SpaceAround(s, |s| - |t|, |s| - |t| + |u|) && u == s[|s| - |t|..|s| - |t| + |u|]
  {
    var i := |s| - |t|;
    var j := i + |u|;
    assert forall k :: j <= k < |s| ==> s[k] == t[k - i];
  }

  /** A string with no white space at either end is left as it is by `Trim`. */
  lemma TrimNoSpace(s: string)
    requires forall k :: 0 <= k < |s| ==> !IsJsSpace(s[k])
    ensures Trim(s) == s
  {
  }

  /** Java's `Character.isWhitespace`. */
  predicate IsJavaWhitespace(c: char) {
    c == ' ' || ('\t' <= c <= '\r') || ('\U{1C}' <= c <= '\U{1F}')
    || c == '\U{1680}' || ('\U{2000}' <= c <= '\U{2006}') || ('\U{2008}' <= c <= '\U{200A}')
    || c == '\U{2028}' || c == '\U{2029}' || c == '\U{205F}' || c == '\U{3000}'
  }

  /** Spring's `StringUtils.hasText`: non-null with at least one non-white-space character. */
  predicate HasText(s: string) {
    exists k :: 0 <= k < |s| && !IsJavaWhitespace(s[k])
  }
}
