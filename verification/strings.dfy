/** The parts of java.lang.String the plugin relies on: ASCII case mapping,
    literal replacement of every occurrence of a target, and the line
    terminators that the regular-expression `.` refuses to match. */
module Strings {

  predicate IsUpper(c: char) {
    'A' <= c <= 'Z'
  }

  predicate IsLower(c: char) {
    'a' <= c <= 'z'
  }

  function LowerChar(c: char): (r: char)
    ensures !IsUpper(r)
    ensures !IsLower(c) && !IsUpper(c) ==> r == c
  {
    if IsUpper(c) then (c as int + 32) as char else c
  }

  function UpperChar(c: char): (r: char)
    ensures !IsLower(r)
    ensures !IsLower(c) && !IsUpper(c) ==> r == c
  {
    if IsLower(c) then (c as int - 32) as char else c
  }

  /** `String.toLowerCase`, restricted to ASCII letters. */
  function ToLower(s: string): (r: string)
    ensures |r| == |s|
    ensures forall i :: 0 <= i < |r| ==> r[i] == LowerChar(s[i])
  {
    seq(|s|, i requires 0 <= i < |s| => LowerChar(s[i]))
  }

  /** `String.toUpperCase`, restricted to ASCII letters. */
  function ToUpper(s: string): (r: string)
    ensures |r| == |s|
    ensures forall i :: 0 <= i < |r| ==> r[i] == UpperChar(s[i])
  {
    seq(|s|, i requires 0 <= i < |s| => UpperChar(s[i]))
  }

  /** `s.replaceAll(c, "")` for a pattern that is a single ordinary character. */
  function RemoveChar(s: string, c: char): (r: string)
    ensures c !in r
    ensures forall x :: x in r <==> x in s && x != c
  {
    if |s| == 0 then ""
    else if s[0] == c then RemoveChar(s[1..], c)
    else [s[0]] + RemoveChar(s[1..], c)
  }

  lemma {:induction false} RemoveCharAppend(a: string, b: string, c: char)
    ensures RemoveChar(a + b, c) == RemoveChar(a, c) + RemoveChar(b, c)
    decreases |a|
  {
    if |a| > 0 {
      assert (a + b)[1..] == a[1..] + b;
      RemoveCharAppend(a[1..], b, c);
    } else {
      assert a + b == b;
    }
  }

  lemma {:induction false} RemoveCharAbsent(s: string, c: char)
    requires c !in s
    ensures RemoveChar(s, c) == s
    decreases |s|
  {
    if |s| > 0 {
      RemoveCharAbsent(s[1..], c);
    }
  }

  /** `s.replaceAll(a, b)` for a pattern and replacement that are single
      ordinary characters. */
  function ReplaceChar(s: string, a: char, b: char): (r: string)
    ensures |r| == |s|
    ensures forall i :: 0 <= i < |s| ==> r[i] == (if s[i] == a then b else s[i])
  {
    seq(|s|, i requires 0 <= i < |s| => if s[i] == a then b else s[i])
  }

  /** `pat` occurs in `s` starting at index `i`. */
  predicate OccursAt(s: string, pat: string, i: nat) {
    i + |pat| <= |s| && s[i..i + |pat|] == pat
  }

  predicate Contains(s: string, pat: string) {
    exists i: nat | i <= |s| :: OccursAt(s, pat, i)
  }

  /** `s.replace(pat, rep)`: every occurrence of the literal `pat`, found left
      to right without overlapping, is replaced by `rep`. */
  function ReplaceLiteral(s: string, pat: string, rep: string): string
    requires |pat| > 0
    decreases |s|
  {
    if |s| < |pat| then s
    else if s[..|pat|] == pat then rep + ReplaceLiteral(s[|pat|..], pat, rep)
    else [s[0]] + ReplaceLiteral(s[1..], pat, rep)
  }

  /** A target that does not occur leaves the string unchanged. */
  lemma {:induction false} ReplaceLiteralAbsent(s: string, pat: string, rep: string)
    requires |pat| > 0
    ensures !Contains(s, pat) ==> ReplaceLiteral(s, pat, rep) == s
    decreases |s|
  {
    if |s| >= |pat| && !Contains(s, pat) {
      assert !OccursAt(s, pat, 0);
      assert !Contains(s[1..], pat) by {
        forall i: nat | OccursAt(s[1..], pat, i)
          ensures false
        {
          assert s[i + 1..i + 1 + |pat|] == s[1..][i..i + |pat|];
          assert OccursAt(s, pat, i + 1);
        }
      }
      ReplaceLiteralAbsent(s[1..], pat, rep);
    }
  }

  /** A pattern whose first character does not recur cannot start inside a
      shorter prefix that the pattern itself follows. */
  lemma ShortPrefixMisses(a: string, pat: string, b: string)
    requires 0 < |a| < |pat|
    requires pat[0] !in pat[1..]
    ensures (a + pat + b)[..|pat|] != pat
  {
    var s := a + pat + b;
    assert s[..|pat|][|a|] == pat[0];
    assert pat[|a|] in pat[1..];
  }

  /** When the target's first character does not recur inside it, an
      occurrence cannot straddle the boundary of an inserted copy, so the
      replacement distributes over that copy. */
  lemma {:induction false} ReplaceLiteralSplit(a: string, pat: string, b: string, rep: string)
    requires |pat| > 0
    requires pat[0] !in pat[1..]
    ensures ReplaceLiteral(a + pat + b, pat, rep)
         == ReplaceLiteral(a, pat, rep) + rep + ReplaceLiteral(b, pat, rep)
    decreases |a|, 1
  {
    var s := a + pat + b;
    if |a| == 0 {
      assert s == pat + b;
      assert s[..|pat|] == pat;
      assert s[|pat|..] == b;
    } else if |a| >= |pat| {
      SplitAfterLongPrefix(a, pat, b, rep);
    } else {
      SplitAfterShortPrefix(a, pat, b, rep);
    }
  }

  /** The step of `ReplaceLiteralSplit` when `a` is at least as long as the
      pattern: the scan consumes the same characters of `a` either way. */
  lemma {:induction false} SplitAfterLongPrefix(a: string, pat: string, b: string, rep: string)
    requires |pat| > 0 && |a| >= |pat|
    requires pat[0] !in pat[1..]
    ensures ReplaceLiteral(a + pat + b, pat, rep)
         == ReplaceLiteral(a, pat, rep) + rep + ReplaceLiteral(b, pat, rep)
    decreases |a|, 0
  {
    var s := a + pat + b;
    assert s[..|pat|] == a[..|pat|];
    if a[..|pat|] == pat {
      assert s[|pat|..] == a[|pat|..] + pat + b;
      ReplaceLiteralSplit(a[|pat|..], pat, b, rep);
    } else {
      assert s[1..] == a[1..] + pat + b;
      ReplaceLiteralSplit(a[1..], pat, b, rep);
    }
  }

  /** The step of `ReplaceLiteralSplit` when `a` is shorter than the
      pattern: nothing matches inside `a`, so its first character is kept. */
  lemma {:induction false} SplitAfterShortPrefix(a: string, pat: string, b: string, rep: string)
    requires 0 < |a| < |pat|
    requires pat[0] !in pat[1..]
    ensures ReplaceLiteral(a + pat + b, pat, rep)
         == ReplaceLiteral(a, pat, rep) + rep + ReplaceLiteral(b, pat, rep)
    decreases |a|, 0
  {
    var s := a + pat + b;
    var tail := ReplaceLiteral(b, pat, rep);
    ShortPrefixMisses(a, pat, b);
    assert s[1..] == a[1..] + pat + b;
    ReplaceLiteralSplit(a[1..], pat, b, rep);
    calc {
      ReplaceLiteral(s, pat, rep);
      [s[0]] + ReplaceLiteral(s[1..], pat, rep);
      [a[0]] + (ReplaceLiteral(a[1..], pat, rep) + rep + tail);
      { assert ReplaceLiteral(a[1..], pat, rep) == a[1..]; }
      [a[0]] + (a[1..] + rep + tail);
      { assert [a[0]] + a[1..] == a; }
      a + rep + tail;
      { assert ReplaceLiteral(a, pat, rep) == a; }
      ReplaceLiteral(a, pat, rep) + rep + tail;
    }
  }

  /** `String.trim`: the characters up to U+0020 at either end are removed. */
  function Trim(s: string): (r: string)
  {
    TrimEnd(TrimStart(s))
  }

  function TrimStart(s: string): (r: string)
    ensures |r| <= |s| && r == s[|s| - |r|..]
    ensures r == "" || r[0] > ' '
    ensures forall i :: 0 <= i < |s| - |r| ==> s[i] <= ' '
    decreases |s|
  {
    if |s| > 0 && s[0] <= ' ' then TrimStart(s[1..]) else s
  }

  function TrimEnd(s: string): (r: string)
    ensures |r| <= |s| && r == s[..|r|]
    ensures forall i :: |r| <= i < |s| ==> s[i] <= ' '
    decreases |s|
  {
    if |s| > 0 && s[|s| - 1] <= ' ' then TrimEnd(s[..|s| - 1]) else s
  }

  /** A string trims to nothing exactly when no character of it is above
      U+0020. */
  lemma TrimEmptyIff(s: string)
    ensures Trim(s) == "" <==> forall i :: 0 <= i < |s| ==> s[i] <= ' '
  {
  }

  /** The characters at which the regular-expression `.` stops matching. */
  predicate IsLineTerminator(c: char) {
    c == '\n' || c == '\r' || c == '\U{0085}' || c == '\U{2028}' || c == '\U{2029}'
  }

  predicate NoLineTerminator(s: string) {
    forall i :: 0 <= i < |s| ==> !IsLineTerminator(s[i])
  }
}
