/** Python string operations the plugins rely on, stated over `seq<char>`:
    `str.strip()`, `str.split()`, `str.splitlines()`, `str.startswith`,
    `in` on strings, slicing with `[:n]`, `str.isdigit()`, `int()` and
    `str()` on non-negative integers, and `str.lower()` restricted to ASCII. */
module Strings {

  /** Python's `str.isspace()` (the set `str.strip()`, `str.split()` and
      the regular expression class `\s` use). */
  predicate IsSpace(c: char) {
    ('\t' <= c <= '\r') || ('\U{1C}' <= c <= ' ') || c == '\U{85}' || c == '\U{A0}'
    || c == '\U{1680}' || ('\U{2000}' <= c <= '\U{200A}') || c == '\U{2028}' || c == '\U{2029}'
    || c == '\U{202F}' || c == '\U{205F}' || c == '\U{3000}'
  }

  /** The line boundaries of Python's `str.splitlines()`. */
  predicate IsLineBreak(c: char) {
    ('\n' <= c <= '\r') || ('\U{1C}' <= c <= '\U{1E}') || c == '\U{85}'
    || c == '\U{2028}' || c == '\U{2029}'
  }

  lemma LineBreakIsSpace(c: char)
    requires IsLineBreak(c)
    ensures IsSpace(c)
  {
  }

  predicate IsAsciiDigit(c: char) {
    '0' <= c <= '9'
  }

  /** `s.isdigit()` for ASCII digits: non-empty and every character a digit. */
  predicate IsDigits(s: string) {
    |s| > 0 && forall k :: 0 <= k < |s| ==> IsAsciiDigit(s[k])
  }

  predicate StartsWith(s: string, prefix: string) {
    |prefix| <= |s| && s[..|prefix|] == prefix
  }

  predicate OccursAt(s: string, pat: string, i: int) {
    0 <= i && i + |pat| <= |s| && s[i..i + |pat|] == pat
  }

  /** Python's `pat in s`. */
  predicate Contains(s: string, pat: string) {
    exists i | 0 <= i <= |s| - |pat| :: OccursAt(s, pat, i)
  }

  predicate IsSuffix(suf: string, s: string) {
    |suf| <= |s| && s[|s| - |suf|..] == suf
  }

  /** `s[:n]`. */
  function Take(s: string, n: nat): (r: string)
    ensures |r| == if |s| < n then |s| else n
    ensures StartsWith(s, r)
  {
    if |s| <= n then s else s[..n]
  }

  // ---------------------------------------------------------------------
  // strip

  function StripLeft(s: string): (r: string)
    ensures IsSuffix(r, s)
    ensures r == [] || !IsSpace(r[0])
    ensures forall k :: 0 <= k < |s| - |r| ==> IsSpace(s[k])
  {
    if s == [] || !IsSpace(s[0]) then s else StripLeft(s[1..])
  }

  function StripRight(s: string): (r: string)
    ensures StartsWith(s, r)
    ensures r == [] || !IsSpace(r[|r| - 1])
    ensures forall k :: |r| <= k < |s| ==> IsSpace(s[k])
  {
    if s == [] || !IsSpace(s[|s| - 1]) then s else StripRight(s[..|s| - 1])
  }

  predicate IsStripped(s: string) {
    s == [] || (!IsSpace(s[0]) && !IsSpace(s[|s| - 1]))
  }

  /** `s.strip()`: the slice of `s` left after removing leading and trailing
      whitespace. */
  function Strip(s: string): (r: string)
    ensures IsStripped(r)
    ensures !IsStripped(s) || r == s
    ensures (forall k :: 0 <= k < |s| ==> IsSpace(s[k])) <==> r == []
  {
    StripRight(StripLeft(s))
  }

  /** What is left after stripping is a piece of the original. */
  lemma StripContained(s: string)
    ensures Contains(s, Strip(s))
  {
    var l := StripLeft(s);
    var r := StripRight(l);
    StripSlice(s, l, r);
    assert OccursAt(s, r, |s| - |l|);
  }

  lemma StripSlice(s: string, l: string, r: string)
    requires l == StripLeft(s) && r == StripRight(l)
    ensures r == s[|s| - |l|..|s| - |l| + |r|]
    ensures (forall k :: 0 <= k < |s| ==> IsSpace(s[k])) <==> r == []
  {
    var d := |s| - |l|;
    SliceOfSlice(s, l, r);
    if r == [] {
      assert l == [];
    } else {
      assert l[0] == s[d];
    }
  }

  lemma SliceOfSlice(s: string, l: string, r: string)
    requires IsSuffix(l, s) && StartsWith(l, r)
    ensures r == s[|s| - |l|..|s| - |l| + |r|]
  {
    var d := |s| - |l|;
    assert forall k :: 0 <= k < |r| ==> r[k] == l[k] == s[d + k];
  }

  lemma StripIdempotent(s: string)
    ensures Strip(Strip(s)) == Strip(s)
  {
  }

  // ---------------------------------------------------------------------
  // lower

  /** `str.lower()` on one character, for ASCII letters only. */
  function LowerChar(c: char): (d: char)
    ensures 'A' <= c <= 'Z' ==> 'a' <= d <= 'z'
    ensures !('A' <= c <= 'Z') ==> d == c
  {
    if 'A' <= c <= 'Z' then (c as int + 32) as char else c
  }

  function Lower(s: string): (r: string)
    ensures |r| == |s|
    ensures forall k :: 0 <= k < |s| ==> r[k] == LowerChar(s[k])
  {
    seq(|s|, k requires 0 <= k < |s| => LowerChar(s[k]))
  }

  /** Lower-casing twice is lower-casing once. */
  lemma LowerIdempotent(s: string)
    ensures Lower(Lower(s)) == Lower(s)
  {
  }

  // ---------------------------------------------------------------------
  // int() and str() on non-negative integers

  function DigitValue(c: char): nat
    requires IsAsciiDigit(c)
  {
    c as int - '0' as int
  }

  function DigitChar(d: nat): (c: char)
    requires d < 10
    ensures IsAsciiDigit(c) && DigitValue(c) == d
  {
    ('0' as int + d) as char
  }

  /** `int(s)` for a string of ASCII digits. */
  function DigitsValue(s: string): nat
    requires forall k :: 0 <= k < |s| ==> IsAsciiDigit(s[k])
  {
    if s == [] then 0 else DigitsValue(s[..|s| - 1]) * 10 + DigitValue(s[|s| - 1])
  }

  /** `str(n)`: the decimal rendering, with no leading zero. */
  function NatToString(n: nat): string
  {
    if n < 10 then [DigitChar(n)] else NatToString(n / 10) + [DigitChar(n % 10)]
  }

  /** The rendering is a digit string without a leading zero (unless it is
      "0") that `int()` reads back as `n`. */
  lemma {:induction false} NatToStringRoundTrip(n: nat)
    ensures var r := NatToString(n);
            IsDigits(r) && (r[0] == '0' ==> n == 0) && DigitsValue(r) == n
  {
    if n >= 10 {
      NatToStringRoundTrip(n / 10);
      var s := NatToString(n);
      assert s[..|s| - 1] == NatToString(n / 10);
    }
  }

  lemma NatToStringInjective(m: nat, n: nat)
    requires NatToString(m) == NatToString(n)
    ensures m == n
  {
    NatToStringRoundTrip(m);
    NatToStringRoundTrip(n);
  }

  // ---------------------------------------------------------------------
  // split() and splitlines()

  /** The first index at or after `i` that is not an ASCII digit. */
  function DigitEnd(s: string, i: nat): (j: nat)
    requires i <= |s|
    ensures i <= j <= |s| && (j < |s| ==> !IsAsciiDigit(s[j]))
    ensures forall k :: i <= k < j ==> IsAsciiDigit(s[k])
    decreases |s| - i
  {
    if i == |s| || !IsAsciiDigit(s[i]) then i else DigitEnd(s, i + 1)
  }

  /** The first index at or after `i` that is whitespace, or `|s|`. */
  function SpaceFrom(s: string, i: nat): (j: nat)
    requires i <= |s|
    ensures i <= j <= |s|
    ensures j < |s| ==> IsSpace(s[j])
    ensures forall k :: i <= k < j ==> !IsSpace(s[k])
    decreases |s| - i
  {
    if i == |s| || IsSpace(s[i]) then i else SpaceFrom(s, i + 1)
  }

  /** `s.split()` with no separator: the maximal runs of non-whitespace. */
  function SplitWhitespace(s: string): seq<string>
    decreases |s|, 1
  {
    WordsFrom(StripLeft(s))
  }

  /** The split of a string that does not start with whitespace. */
  function WordsFrom(t: string): seq<string>
    requires t == [] || !IsSpace(t[0])
    decreases |t|, 0
  {
    if t == [] then []
    else
      var j := SpaceFrom(t, 0);
      [t[..j]] + SplitWhitespace(t[j..])
  }

  predicate NoSpace(s: string) {
    forall k :: 0 <= k < |s| ==> !IsSpace(s[k])
  }

  /** Every part of a split is a non-empty run without whitespace. */
  lemma {:induction false} SplitWhitespaceWords(s: string)
    ensures forall p :: p in SplitWhitespace(s) ==> p != [] && NoSpace(p)
    decreases |s|
  {
    var t := StripLeft(s);
    if t != [] {
      var j := SpaceFrom(t, 0);
      var rest := SplitWhitespace(t[j..]);
      SplitWhitespaceWords(t[j..]);
      assert SplitWhitespace(s) == [t[..j]] + rest;
      assert t[..j] != [] && NoSpace(t[..j]) by {
        forall k | 0 <= k < j
          ensures !IsSpace(t[..j][k])
        {
          assert t[..j][k] == t[k];
        }
      }
    }
  }

  /** Two words separated by a single space split back into the two words. */
  lemma SplitTwoWords(p: string, v: string)
    requires p != [] && v != []
    requires forall k :: 0 <= k < |p| ==> !IsSpace(p[k])
    requires forall k :: 0 <= k < |v| ==> !IsSpace(v[k])
    ensures SplitWhitespace(p + " " + v) == [p] + [v]
  {
    var rest := [' '] + v;
    assert IsSpace(' ');
    assert p + " " + v == p + rest;
    SplitLeadingWord(p, rest);
    SplitAfterSpace(' ', v);
    SplitLeadingWord(v, []);
    assert v + [] == v;
    assert SplitWhitespace([]) == [];
    assert SplitWhitespace(rest) == [v];
  }

  /** Leading whitespace does not change the split. */
  lemma SplitAfterSpace(c: char, s: string)
    requires IsSpace(c)
    ensures SplitWhitespace([c] + s) == SplitWhitespace(s)
  {
    var t := [c] + s;
    assert t != [] && t[0] == c && t[1..] == s;
    assert StripLeft(t) == StripLeft(t[1..]);
  }

  /** A leading word followed by whitespace or nothing is split off first. */
  lemma SplitLeadingWord(w: string, rest: string)
    requires w != [] && forall k :: 0 <= k < |w| ==> !IsSpace(w[k])
    requires rest == [] || IsSpace(rest[0])
    ensures SplitWhitespace(w + rest) == [w] + SplitWhitespace(rest)
  {
    var t := w + rest;
    assert StripLeft(t) == t;
    SpaceFromRun(t, 0, |w|);
    assert t[..|w|] == w && t[|w|..] == rest;
    assert SplitWhitespace(t) == WordsFrom(t);
  }

  lemma {:induction false} SpaceFromRun(s: string, i: nat, j: nat)
    requires i <= j <= |s|
    requires forall k :: i <= k < j ==> !IsSpace(s[k])
    requires j == |s| || IsSpace(s[j])
    ensures SpaceFrom(s, i) == j
    decreases j - i
  {
    if i < j {
      SpaceFromRun(s, i + 1, j);
    }
  }

  /** The first index at or after `i` that is a line boundary, or `|s|`. */
  function LineEnd(s: string, i: nat): (j: nat)
    requires i <= |s|
    ensures i <= j <= |s|
    ensures j < |s| ==> IsLineBreak(s[j])
    ensures forall k :: i <= k < j ==> !IsLineBreak(s[k])
    decreases |s| - i
  {
    if i == |s| || IsLineBreak(s[i]) then i else LineEnd(s, i + 1)
  }

  /** `s.splitlines()`: the lines without their terminators; "\r\n" is one
      terminator, and a final terminator does not start an empty line. */
  function SplitLines(s: string): seq<string>
    decreases |s|
  {
    if s == [] then []
    else
      var j := LineEnd(s, 0);
      if j == |s| then [s]
      else
        var next := if s[j] == '\r' && j + 1 < |s| && s[j + 1] == '\n' then j + 2 else j + 1;
        [s[..j]] + SplitLines(s[next..])
  }

  predicate NoLineBreak(l: string) {
    forall k :: 0 <= k < |l| ==> !IsLineBreak(l[k])
  }

  /** No line of a split holds a line boundary. */
  lemma {:induction false} SplitLinesUnbroken(s: string)
    ensures forall l :: l in SplitLines(s) ==> NoLineBreak(l)
    decreases |s|
  {
    if s != [] {
      var j := LineEnd(s, 0);
      assert NoLineBreak(s[..j]) by {
        forall k | 0 <= k < j
          ensures !IsLineBreak(s[..j][k])
        {
          assert s[..j][k] == s[k];
        }
      }
      if j < |s| {
        var next := if s[j] == '\r' && j + 1 < |s| && s[j + 1] == '\n' then j + 2 else j + 1;
        var rest := SplitLines(s[next..]);
        SplitLinesUnbroken(s[next..]);
        assert SplitLines(s) == [s[..j]] + rest;
      } else {
        assert s[..j] == s;
        assert SplitLines(s) == [s];
      }
    }
  }

  /** `sep.join(parts)`. */
  function Join(parts: seq<string>, sep: string): (r: string)
    ensures |parts| == 1 ==> r == parts[0]
  {
    if parts == [] then []
    else if |parts| == 1 then parts[0]
    else parts[0] + sep + Join(parts[1..], sep)
  }

  /** Joining lines that are non-empty and free of line boundaries with "\n"
      and splitting the result again gives the lines back. */
  lemma {:induction false} SplitLinesOfJoin(lines: seq<string>)
    requires forall l :: l in lines ==> l != [] && forall k :: 0 <= k < |l| ==> !IsLineBreak(l[k])
    ensures SplitLines(Join(lines, "\n")) == lines
  {
    if |lines| == 1 {
      NoBreakLineEnd(lines[0], 0);
    } else if |lines| > 1 {
      SplitLinesCons(lines[0], Join(lines[1..], "\n"));
      SplitLinesOfJoin(lines[1..]);
    }
  }


  /** A text without line boundaries from `i` on ends its line at its end. */
  lemma {:induction false} NoBreakLineEnd(s: string, i: nat)
    requires i <= |s| && forall k :: 0 <= k < |s| ==> !IsLineBreak(s[k])
    ensures LineEnd(s, i) == |s|
    decreases |s| - i
  {
    if i < |s| {
      NoBreakLineEnd(s, i + 1);
    }
  }

  /** A first line without boundaries, then "\n": the split starts with
      that line and goes on with the rest. */
  lemma SplitLinesCons(h: string, rest: string)
    requires forall k :: 0 <= k < |h| ==> !IsLineBreak(h[k])
    ensures SplitLines(h + "\n" + rest) == [h] + SplitLines(rest)
  {
    var s := h + "\n" + rest;
    assert s[|h|] == '\n';
    forall k | 0 <= k < |h|
      ensures !IsLineBreak(s[k])
    {
      assert s[k] == h[k];
    }
    FirstBreak(s, |h|, 0);
    assert s[..|h|] == h;
    assert s[|h| + 1..] == rest;
  }

  /** The line starting at `i` ends at the first boundary `n`. */
  lemma {:induction false} FirstBreak(s: string, n: nat, i: nat)
    requires i <= n < |s| && IsLineBreak(s[n])
    requires forall k :: 0 <= k < n ==> !IsLineBreak(s[k])
    ensures LineEnd(s, i) == n
    decreases n - i
  {
    if i < n {
      FirstBreak(s, n, i + 1);
    }
  }
}
