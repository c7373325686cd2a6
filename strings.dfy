/** Character-level string operations shared by the Python and JavaScript parts of the site.
    Only the ASCII part of each language's whitespace and case rules is modelled. */
module Strings {

  /** Whose whitespace a trim follows: Python's `str.strip()` or JavaScript's `String.prototype.trim()`. */
  datatype Flavor = Python | JavaScript

  /** ASCII whitespace: space and TAB..CR for both languages; Python's `str.isspace` also
      counts the information separators U+001C..U+001F. */
  predicate IsSpace(c: char, f: Flavor) {
    c == ' ' || '\t' <= c <= '\r' || (f == Python && '\U{1C}' <= c <= '\U{1F}')
  }

  predicate AllSpace(s: string, f: Flavor) {
    forall i :: 0 <= i < |s| ==> IsSpace(s[i], f)
  }

  /** A line feed or a carriage return. */
  predicate IsLineBreak(c: char) {
    c == '\n' || c == '\r'
  }

  predicate NoLineBreaks(s: string) {
    forall i :: 0 <= i < |s| ==> !IsLineBreak(s[i])
  }

  /** Empty, or starting and ending with a non-whitespace character. */
  predicate IsTrimmed(s: string, f: Flavor) {
    s == [] || (!IsSpace(s[0], f) && !IsSpace(s[|s| - 1], f))
  }

  /** The end of the run of whitespace that starts at `i`. */
  function SpaceRunEnd(s: string, f: Flavor, i: nat): (n: nat)
    requires i <= |s|
    ensures i <= n <= |s|
    ensures forall k :: i <= k < n ==> IsSpace(s[k], f)
    ensures n < |s| ==> !IsSpace(s[n], f)
    decreases |s| - i
  {
    if i < |s| && IsSpace(s[i], f) then SpaceRunEnd(s, f, i + 1) else i
  }

  /** The start of the run of whitespace that ends at `j`, looking no further left than `lo`. */
  function SpaceRunStart(s: string, f: Flavor, lo: nat, j: nat): (n: nat)
    requires lo <= j <= |s|
    ensures lo <= n <= j
    ensures forall k :: n <= k < j ==> IsSpace(s[k], f)
    ensures n > lo ==> !IsSpace(s[n - 1], f)
    decreases j
  {
    if j > lo && IsSpace(s[j - 1], f) then SpaceRunStart(s, f, lo, j - 1) else j
  }

  /** `r` occurs in `s` at `a`, and everything around it is whitespace. */
  predicate InsideSpace(s: string, r: string, a: int, f: Flavor) {
    && 0 <= a <= |s| - |r| && r == s[a..a + |r|]
    && (forall k :: 0 <= k < a ==> IsSpace(s[k], f))
    && (forall k :: a + |r| <= k < |s| ==> IsSpace(s[k], f))
  }

  /** Python's `s.strip()` / JavaScript's `s.trim()`: removes the whitespace at both ends and
      keeps the middle as it is. */
  function Trim(s: string, f: Flavor): (r: string)
    ensures IsTrimmed(r, f)
    ensures r == [] <==> AllSpace(s, f)
    ensures exists a :: InsideSpace(s, r, a, f)
  {
    var a := SpaceRunEnd(s, f, 0);
    var b := SpaceRunStart(s, f, a, |s|);
    var r := s[a..b];
    assert a < b ==> r[0] == s[a] && r[|r| - 1] == s[b - 1];
    assert AllSpace(s, f) ==> a == |s|;
    assert InsideSpace(s, r, a, f);
    r
  }

  /** Trimming is idempotent. */
  lemma TrimIdempotent(s: string, f: Flavor)
    ensures Trim(Trim(s, f), f) == Trim(s, f)
  {
    var t := Trim(s, f);
    var a := SpaceRunEnd(t, f, 0);
    assert a == 0;
    var b := SpaceRunStart(t, f, 0, |t|);
    assert b == |t|;
  }

  /** A string that is already trimmed is left as it is. */
  lemma TrimTrimmed(s: string, f: Flavor)
    requires IsTrimmed(s, f)
    ensures Trim(s, f) == s
  {
    var a := SpaceRunEnd(s, f, 0);
    assert a == 0;
    var b := SpaceRunStart(s, f, 0, |s|);
    assert b == |s|;
    assert s[0..|s|] == s;
  }

  predicate IsAsciiUpper(c: char) { 'A' <= c <= 'Z' }
  predicate IsAsciiLower(c: char) { 'a' <= c <= 'z' }

  function LowerChar(c: char): char {
    if IsAsciiUpper(c) then (c as int + 32) as char else c
  }

  function UpperChar(c: char): char {
    if IsAsciiLower(c) then (c as int - 32) as char else c
  }

  /** Python's `str.lower()` / JavaScript's `toLowerCase()` on ASCII letters. */
  function Lower(s: string): (r: string)
    ensures |r| == |s|
    ensures forall i :: 0 <= i < |s| ==> r[i] == LowerChar(s[i])
  {
    if s == [] then [] else [LowerChar(s[0])] + Lower(s[1..])
  }

  /** JavaScript's `toUpperCase()` on ASCII letters. */
  function Upper(s: string): (r: string)
    ensures |r| == |s|
    ensures forall i :: 0 <= i < |s| ==> r[i] == UpperChar(s[i])
  {
    if s == [] then [] else [UpperChar(s[0])] + Upper(s[1..])
  }

  predicate EndsWith(s: string, suffix: string) {
    |suffix| <= |s| && s[|s| - |suffix|..] == suffix
  }

  predicate StartsWith(s: string, prefix: string) {
    |prefix| <= |s| && s[..|prefix|] == prefix
  }

  /** A string ending in two suffixes ends, in the longer one, with the shorter one. */
  lemma EndsWithBoth(s: string, a: string, b: string)
    requires EndsWith(s, a) && EndsWith(s, b) && |a| <= |b|
    ensures EndsWith(b, a)
  {
    assert b[|b| - |a|..] == s[|s| - |a|..];
  }

  /** JavaScript's `s.replace(/c/g, rep)` for a one-character pattern whose replacement holds
      no `$` pattern: each occurrence of `c` becomes `rep`. */
  function ReplaceChar(s: string, c: char, rep: string): (r: string)
    ensures c !in s ==> r == s
    ensures c !in rep ==> c !in r
  {
    if s == [] then []
    else (if s[0] == c then rep else [s[0]]) + ReplaceChar(s[1..], c, rep)
  }

  lemma {:induction false} ReplaceCharAppend(a: string, b: string, c: char, rep: string)
    ensures ReplaceChar(a + b, c, rep) == ReplaceChar(a, c, rep) + ReplaceChar(b, c, rep)
  {
    if a == [] {
      assert a + b == b;
    } else {
      var p := if a[0] == c then rep else [a[0]];
      calc {
        ReplaceChar(a + b, c, rep);
        { assert (a + b)[0] == a[0]; assert (a + b)[1..] == a[1..] + b; }
        p + ReplaceChar(a[1..] + b, c, rep);
        { ReplaceCharAppend(a[1..], b, c, rep); }
        p + (ReplaceChar(a[1..], c, rep) + ReplaceChar(b, c, rep));
        (p + ReplaceChar(a[1..], c, rep)) + ReplaceChar(b, c, rep);
      }
    }
  }

  /** A character in neither the input nor the replacement is not in the output. */
  lemma {:induction false} ReplaceCharKeepsOut(s: string, c: char, rep: string, x: char)
    requires x !in s && x !in rep
    ensures x !in ReplaceChar(s, c, rep)
  {
    if s != [] {
      assert s[0] != x && x !in s[1..];
      ReplaceCharKeepsOut(s[1..], c, rep, x);
    }
  }

  /** `s.replace(/pat/g, rep)` for a literal pattern: scans from the left and replaces
      non-overlapping occurrences of `pat`. */
  function ReplaceText(s: string, pat: string, rep: string): (r: string)
    requires pat != []
    decreases |s|
  {
    if |s| < |pat| then s
    else if s[..|pat|] == pat then rep + ReplaceText(s[|pat|..], pat, rep)
    else [s[0]] + ReplaceText(s[1..], pat, rep)
  }

  /** Where the pattern does not start, the first character is copied. */
  lemma ReplaceTextHead(s: string, pat: string, rep: string)
    requires pat != [] && s != []
    requires |s| < |pat| || s[..|pat|] != pat
    ensures ReplaceText(s, pat, rep) == [s[0]] + ReplaceText(s[1..], pat, rep)
  {
    if |s| < |pat| {
      assert [s[0]] + s[1..] == s;
    }
  }

  /** A leading part holding no first character of the pattern is copied unchanged. */
  lemma {:induction false} ReplaceTextSkip(t: string, u: string, pat: string, rep: string)
    requires pat != [] && pat[0] !in t
    ensures ReplaceText(t + u, pat, rep) == t + ReplaceText(u, pat, rep)
    decreases |t|
  {
    if t == [] {
      assert t + u == u;
    } else {
      var s := t + u;
      assert s[0] == t[0] && s[1..] == t[1..] + u;
      assert |s| < |pat| || s[..|pat|] != pat by {
        if |s| >= |pat| { assert s[..|pat|][0] == t[0]; }
      }
      ReplaceTextHead(s, pat, rep);
      ReplaceTextSkip(t[1..], u, pat, rep);
      assert [t[0]] + t[1..] == t;
    }
  }

  /** An occurrence of the pattern at the front is replaced. */
  lemma ReplaceTextMatch(u: string, pat: string, rep: string)
    requires pat != []
    ensures ReplaceText(pat + u, pat, rep) == rep + ReplaceText(u, pat, rep)
  {
    assert (pat + u)[..|pat|] == pat;
    assert (pat + u)[|pat|..] == u;
  }

  /** A piece that starts like the pattern but differs from it at its second character, and
      holds no other first character of the pattern, is copied unchanged. */
  lemma ReplaceTextMiss(piece: string, u: string, pat: string, rep: string)
    requires |pat| >= 2 && |piece| >= 2
    requires piece[1] != pat[1] && pat[0] !in piece[1..]
    ensures ReplaceText(piece + u, pat, rep) == piece + ReplaceText(u, pat, rep)
  {
    var s := piece + u;
    assert s[0] == piece[0] && s[1..] == piece[1..] + u;
    assert |s| < |pat| || s[..|pat|] != pat by {
      if |s| >= |pat| { assert s[..|pat|][1] == piece[1]; }
    }
    ReplaceTextHead(s, pat, rep);
    ReplaceTextSkip(piece[1..], u, pat, rep);
    assert [piece[0]] + piece[1..] == piece;
  }

}
