/** The music-link plugin (QishuiMusic): the lyric cleaner, the preview of
    the cleaned lyrics, and the per-group whitelist that stops link parsing
    in a group. Fetching, downloading and converting audio are not part of
    this model; where the plugin would start them, the model answers
    `Parse(link)`. */
module Qishui {
  import opened Wrappers
  import opened Strings

  // -----------------------------------------------------------------------
  // Tag removal

  /** The end of `n` runs of digits separated by ',' starting at `i`
      (each run non-empty, `\d+`), if they are there. */
  function GroupsEnd(s: string, i: nat, n: nat): (r: Option<nat>)
    requires i <= |s| && n >= 1
    ensures r.Some? ==> i < r.value <= |s|
    decreases n
  {
    var j := DigitEnd(s, i);
    if j == i then None
    else if n == 1 then Some(j)
    else if j < |s| && s[j] == ',' then GroupsEnd(s, j + 1, n - 1)
    else None
  }

  /** The end of a tag made of `open`, `n` comma-separated digit runs and
      `close`, when one starts at `i`. */
  function TagAt(s: string, i: nat, open: char, close: char, n: nat): (r: Option<nat>)
    requires i <= |s| && n >= 1
    ensures r.Some? ==> i + 2 < r.value <= |s| && s[i] == open && s[r.value - 1] == close
  {
    if i < |s| && s[i] == open then
      match GroupsEnd(s, i + 1, n)
      case Some(j) => if j < |s| && s[j] == close then Some(j + 1) else None
      case None => None
    else None
  }

  /** `re.sub(pattern, '', s)` for the tag pattern: one scan from the left;
      a tag found at the current position is dropped and the scan resumes
      after it, otherwise the character is kept. */
  function RemoveTags(s: string, i: nat, open: char, close: char, n: nat): (r: string)
    requires i <= |s| && n >= 1
    ensures |r| <= |s| - i
    ensures forall c :: c in r ==> c in s[i..]
    decreases |s| - i
  {
    if i == |s| then []
    else match TagAt(s, i, open, close, n)
      case Some(e) =>
        var r := RemoveTags(s, e, open, close, n);
        assert forall c :: c in s[e..] ==> c in s[i..] by {
          assert s[e..] == s[i..][e - i..];
        }
        r
      case None =>
        var r := RemoveTags(s, i + 1, open, close, n);
        assert s[i..] == [s[i]] + s[i + 1..];
        [s[i]] + r
  }

  /** No tag starts anywhere in `s`. */
  predicate NoTag(s: string, open: char, close: char, n: nat)
    requires n >= 1
  {
    forall i :: 0 <= i <= |s| ==> TagAt(s, i, open, close, n).None?
  }

  /** A text without tags goes through the removal unchanged. */
  lemma {:induction false} RemoveNothing(s: string, i: nat, open: char, close: char, n: nat)
    requires i <= |s| && n >= 1 && NoTag(s, open, close, n)
    ensures RemoveTags(s, i, open, close, n) == s[i..]
    decreases |s| - i
  {
    if i < |s| {
      assert TagAt(s, i, open, close, n).None?;
      RemoveNothing(s, i + 1, open, close, n);
      assert s[i..] == [s[i]] + s[i + 1..];
    }
  }

  /** `[start,end]` time stamps and `<start,duration,x>` word timings. */
  function RemoveStamps(line: string): (r: string)
    ensures |r| <= |line|
    ensures forall c :: c in r ==> c in line
  {
    var once := RemoveTags(line, 0, '[', ']', 2);
    assert line[0..] == line;
    var twice := RemoveTags(once, 0, '<', '>', 3);
    assert once[0..] == once;
    twice
  }

  /** One cleaned line: stamps removed, then whitespace stripped. */
  function CleanLine(line: string): (r: string)
    ensures IsStripped(r)
    ensures forall c :: c in r ==> c in line
  {
    var r := Strip(RemoveStamps(line));
    StripContained(RemoveStamps(line));
    CharsOfContained(RemoveStamps(line), r);
    r
  }

  /** Every character of a contained string is a character of the outer one. */
  lemma CharsOfContained(s: string, t: string)
    requires Contains(s, t)
    ensures forall c :: c in t ==> c in s
  {
    var i :| 0 <= i <= |s| - |t| && OccursAt(s, t, i);
    forall c | c in t ensures c in s {
      var k :| 0 <= k < |t| && t[k] == c;
      assert s[i + k] == t[k];
    }
  }

  /** What one line contributes: its cleaned form, unless that is empty. */
  function KeptLine(line: string): seq<string> {
    if CleanLine(line) != [] then [CleanLine(line)] else []
  }

  /** The lines kept, in order: each cleaned, the empty ones dropped. */
  function CleanedLines(lines: seq<string>): seq<string> {
    if lines == [] then [] else KeptLine(lines[0]) + CleanedLines(lines[1..])
  }

  /** Cleaning works line by line: the cleaned lines of two stretches of
      input are those of the first followed by those of the second. */
  lemma {:induction false} CleanedLinesAppend(a: seq<string>, b: seq<string>)
    ensures CleanedLines(a + b) == CleanedLines(a) + CleanedLines(b)
  {
    if a == [] {
      assert a + b == b;
    } else {
      var ab := a + b;
      assert ab[0] == a[0];
      assert ab[1..] == a[1..] + b;
      CleanedLinesAppend(a[1..], b);
      calc {
        CleanedLines(ab);
        KeptLine(a[0]) + CleanedLines(a[1..] + b);
        KeptLine(a[0]) + (CleanedLines(a[1..]) + CleanedLines(b));
        (KeptLine(a[0]) + CleanedLines(a[1..])) + CleanedLines(b);
      }
    }
  }

  /** One more line of input adds what that line contributes. */
  lemma CleanedLinesSnoc(lines: seq<string>, i: nat)
    requires i < |lines|
    ensures CleanedLines(lines[..i + 1]) == CleanedLines(lines[..i]) + KeptLine(lines[i])
  {
    assert lines[..i + 1] == lines[..i] + [lines[i]];
    CleanedLinesAppend(lines[..i], [lines[i]]);
    assert [lines[i]][1..] == [];
  }

  /** Every kept line is the cleaned form of an input line, non-empty and
      stripped. */
  lemma {:induction false} CleanedLinesFrom(lines: seq<string>)
    ensures forall l :: l in CleanedLines(lines) ==> l != [] && IsStripped(l)
                                                     && exists k :: 0 <= k < |lines| && l == CleanLine(lines[k])
  {
    if lines != [] {
      CleanedLinesFrom(lines[1..]);
      forall l | l in CleanedLines(lines)
        ensures l != [] && IsStripped(l) && exists k :: 0 <= k < |lines| && l == CleanLine(lines[k])
      {
        if l !in CleanedLines(lines[1..]) {
          assert l in KeptLine(lines[0]);
        } else {
          var k :| 0 <= k < |lines[1..]| && l == CleanLine(lines[1..][k]);
          assert lines[1..][k] == lines[k + 1];
        }
      }
    }
  }

  /** `_clean_lyrics`: nothing (None or empty) gives ""; otherwise the kept
      lines joined with "\n". */
  function Cleaned(lyrics: Option<string>): (r: string)
    ensures lyrics.None? || lyrics.value == [] ==> r == []
  {
    if lyrics.None? || lyrics.value == [] then []
    else Join(CleanedLines(SplitLines(lyrics.value)), "\n")
  }

  /** The loop over the lines, appending each non-empty cleaned line. */
  method CleanLyrics(lyrics: Option<string>) returns (result: string)
    ensures result == Cleaned(lyrics)
  {
    if lyrics.None? || lyrics.value == [] {
      return [];
    }
    var lines := SplitLines(lyrics.value);
    var cleaned: seq<string> := [];
    var i := 0;
    while i < |lines|
      invariant i <= |lines|
      invariant cleaned == CleanedLines(lines[..i])
    {
      var line := RemoveTags(lines[i], 0, '[', ']', 2);
      line := RemoveTags(line, 0, '<', '>', 3);
      line := Strip(line);
      CleanedLinesSnoc(lines, i);
      assert line == CleanLine(lines[i]);
      if line != [] {
        cleaned := cleaned + [line];
      }
      i := i + 1;
    }
    assert lines[..|lines|] == lines;
    result := Join(cleaned, "\n");
  }

  /** The output's lines are exactly the kept lines: none is empty, each is
      stripped, and each is the cleaned form of an input line. */
  lemma OutputLines(lyrics: string)
    requires lyrics != []
    ensures SplitLines(Cleaned(Some(lyrics))) == CleanedLines(SplitLines(lyrics))
    ensures forall l :: l in SplitLines(Cleaned(Some(lyrics))) ==>
              l != [] && IsStripped(l) && exists k :: 0 <= k < |SplitLines(lyrics)| && l == CleanLine(SplitLines(lyrics)[k])
  {
    var lines := SplitLines(lyrics);
    var kept := CleanedLines(lines);
    CleanedLinesFrom(lines);
    SplitLinesUnbroken(lyrics);
    forall l | l in kept ensures l != [] && forall k :: 0 <= k < |l| ==> !IsLineBreak(l[k]) {
      var j :| 0 <= j < |lines| && l == CleanLine(lines[j]);
      assert lines[j] in lines;
      forall k | 0 <= k < |l| ensures !IsLineBreak(l[k]) {
        assert l[k] in l;
        var m :| 0 <= m < |lines[j]| && lines[j][m] == l[k];
      }
    }
    SplitLinesOfJoin(kept);
  }

  /** A line without stamps is only stripped. */
  lemma UntaggedLine(line: string)
    requires NoTag(line, '[', ']', 2)
    ensures NoTag(line, '<', '>', 3) ==> CleanLine(line) == Strip(line)
  {
    RemoveNothing(line, 0, '[', ']', 2);
    assert line[0..] == line;
    if NoTag(line, '<', '>', 3) {
      RemoveNothing(line, 0, '<', '>', 3);
    }
  }

  /** A stamp at the start of a line is dropped. */
  lemma StampRemoved()
    ensures CleanLine("[12,345]la") == "la"
  {
    var s := "[12,345]la";
    assert RemoveTags(s, 0, '[', ']', 2) == "la" by {
      LeadingStamp();
      assert TagAt(s, 8, '[', ']', 2).None? && TagAt(s, 9, '[', ']', 2).None?;
      assert RemoveTags(s, 10, '[', ']', 2) == [];
    }
    RemoveNothingShort("la", 0, '<', '>', 3);
    assert "la"[0..] == "la";
    assert RemoveStamps(s) == "la";
    assert IsStripped("la");
  }

  lemma LeadingStamp()
    ensures TagAt("[12,345]la", 0, '[', ']', 2) == Some(8)
  {
    var s := "[12,345]la";
    assert DigitEnd(s, 1) == 3 by {
      assert IsAsciiDigit(s[1]) && IsAsciiDigit(s[2]) && !IsAsciiDigit(s[3]);
    }
    assert DigitEnd(s, 4) == 7 by {
      assert IsAsciiDigit(s[4]) && IsAsciiDigit(s[5]) && IsAsciiDigit(s[6]) && !IsAsciiDigit(s[7]);
    }
    assert GroupsEnd(s, 1, 2) == Some(7);
  }

  /** A text without the stamp's opening character has no stamp. */
  lemma RemoveNothingShort(s: string, i: nat, open: char, close: char, n: nat)
    requires i <= |s| && n >= 1 && open !in s
    ensures RemoveTags(s, i, open, close, n) == s[i..]
  {
    forall k | 0 <= k <= |s| ensures TagAt(s, k, open, close, n).None? {
      if k < |s| {
        assert s[k] in s;
      }
    }
    RemoveNothing(s, i, open, close, n);
  }

  /** The removal is a single pass: a stamp that only forms once an inner
      one is removed stays. */
  lemma SinglePass()
    ensures RemoveTags("[[1,2]3,4]", 0, '[', ']', 2) == "[3,4]"
  {
    var s := "[[1,2]3,4]";
    assert DigitEnd(s, 1) == 1;
    assert TagAt(s, 0, '[', ']', 2).None?;
    assert DigitEnd(s, 2) == 3 && DigitEnd(s, 4) == 5;
    assert TagAt(s, 1, '[', ']', 2) == Some(6);
    assert RemoveTags(s, 6, '[', ']', 2) == "3,4]" by {
      assert TagAt(s, 6, '[', ']', 2).None? && TagAt(s, 7, '[', ']', 2).None?;
      assert TagAt(s, 8, '[', ']', 2).None? && TagAt(s, 9, '[', ']', 2).None?;
      assert RemoveTags(s, 10, '[', ']', 2) == [];
    }
  }

  // -----------------------------------------------------------------------
  // Preview

  /** The most characters of lyrics shown in full. */
  const PreviewLimit := 1500

  /** The lyric preview: the text itself when short enough, otherwise its
      first `PreviewLimit` characters followed by "...". */
  function Preview(text: string): (r: string)
    ensures |r| <= PreviewLimit + 3
    ensures |text| <= PreviewLimit ==> r == text
    ensures |text| > PreviewLimit ==> |r| == PreviewLimit + 3 && IsSuffix("...", r)
    ensures StartsWith(r, Take(text, PreviewLimit))
  {
    if |text| <= PreviewLimit then text else text[..PreviewLimit] + "..."
  }

  /** The lyrics part of a parsed song: a preview is sent only for lyrics
      that are non-empty after cleaning. */
  function LyricsPreview(lyrics: string): (r: Option<string>)
    ensures r.Some? <==> Cleaned(Some(lyrics)) != []
    ensures r.Some? ==> r.value != [] && |r.value| <= PreviewLimit + 3
  {
    if lyrics == [] then None
    else
      var cleaned := Cleaned(Some(lyrics));
      if cleaned == [] then None else Some(Preview(cleaned))
  }

  // -----------------------------------------------------------------------
  // Links

  const HttpsPrefix := "https://qishui.douyin.com/"
  const HttpPrefix := "http://qishui.douyin.com/"

  /** The two prefixes hold no whitespace, and they differ at their fifth
      character, so at most one occurs at a given index. */
  lemma LinkPrefixes(s: string, i: nat)
    requires i <= |s|
    ensures OccursAt(s, HttpsPrefix, i) ==> !OccursAt(s, HttpPrefix, i)
    ensures OccursAt(s, HttpsPrefix, i) ==> forall j :: i <= j < i + |HttpsPrefix| ==> !IsSpace(s[j])
    ensures OccursAt(s, HttpPrefix, i) ==> forall j :: i <= j < i + |HttpPrefix| ==> !IsSpace(s[j])
  {
    assert forall t :: 0 <= t < |HttpsPrefix| ==> !IsSpace(HttpsPrefix[t]);
    assert forall t :: 0 <= t < |HttpPrefix| ==> !IsSpace(HttpPrefix[t]);
    if OccursAt(s, HttpsPrefix, i) {
      assert s[i + 4] == HttpsPrefix[4];
      forall j | i <= j < i + |HttpsPrefix| ensures !IsSpace(s[j]) {
        assert s[j] == s[i..i + |HttpsPrefix|][j - i];
      }
    }
    if OccursAt(s, HttpPrefix, i) {
      assert s[i + 4] == HttpPrefix[4];
      forall j | i <= j < i + |HttpPrefix| ensures !IsSpace(s[j]) {
        assert s[j] == s[i..i + |HttpPrefix|][j - i];
      }
    }
  }

  /** The end of a link starting at `i`: the prefix, then at least one
      non-whitespace character, as many as there are. */
  function LinkAt(s: string, i: nat): (r: Option<nat>)
    requires i <= |s|
    ensures r.Some? <==>
              || (OccursAt(s, HttpsPrefix, i) && i + |HttpsPrefix| < |s| && !IsSpace(s[i + |HttpsPrefix|]))
              || (OccursAt(s, HttpPrefix, i) && i + |HttpPrefix| < |s| && !IsSpace(s[i + |HttpPrefix|]))
    ensures r.Some? ==> i < r.value <= |s| && (r.value < |s| ==> IsSpace(s[r.value]))
    ensures r.Some? ==> forall k :: i <= k < r.value ==> !IsSpace(s[k])
  {
    LinkPrefixes(s, i);
    var k := if OccursAt(s, HttpsPrefix, i) then Some(i + |HttpsPrefix|)
             else if OccursAt(s, HttpPrefix, i) then Some(i + |HttpPrefix|)
             else None;
    if k.None? then None
    else
      var e := SpaceFrom(s, k.value);
      if e == k.value then None else Some(e)
  }

  /** `_QISHUI_PATTERN.search(s).group(0)`: the leftmost link. */
  function FindLink(s: string, i: nat): (r: Option<string>)
    requires i <= |s|
    ensures r.Some? ==> exists k :: i <= k <= |s| && LinkAt(s, k).Some? && r.value == s[k..LinkAt(s, k).value]
    ensures r.None? <==> forall k :: i <= k <= |s| ==> LinkAt(s, k).None?
    decreases |s| - i
  {
    match LinkAt(s, i)
    case Some(e) => Some(s[i..e])
    case None => if i == |s| then None else FindLink(s, i + 1)
  }

  /** `search` returns the leftmost match: no position before the link
      `FindLink` returns starts one. */
  lemma {:induction false} FindLinkLeftmost(s: string, i: nat)
    requires i <= |s|
    ensures FindLink(s, i).Some? ==>
              exists k :: i <= k <= |s| && LinkAt(s, k).Some? && FindLink(s, i).value == s[k..LinkAt(s, k).value]
                          && forall m :: i <= m < k ==> LinkAt(s, m).None?
    decreases |s| - i
  {
    if LinkAt(s, i).Some? {
      assert FindLink(s, i).value == s[i..LinkAt(s, i).value];
    } else if i < |s| {
      FindLinkLeftmost(s, i + 1);
      if FindLink(s, i + 1).Some? {
        var k :| i + 1 <= k <= |s| && LinkAt(s, k).Some? && FindLink(s, i + 1).value == s[k..LinkAt(s, k).value]
                 && forall m :: i + 1 <= m < k ==> LinkAt(s, m).None?;
        assert forall m :: i <= m < k ==> LinkAt(s, m).None?;
      }
    }
  }

  // -----------------------------------------------------------------------
  // The whitelist and the message handler

  datatype Answer =
    | Help(listed: bool)
    | NoPermission
    | Added
    | AlreadyListed
    | Removed
    | NotListed
    | ListedNotice
    | Parse(link: string)
    | Unhandled

  /** The handler on the stripped message text `m` of group `group`, with
      the prefix `reminder` and the sender's permission `perm`: the new
      whitelist and the answer. */
  function Handle(whitelist: set<string>, m: string, group: string, perm: bool, reminder: string): (set<string>, Answer) {
    if m == reminder + "汽水音乐解析帮助" then (whitelist, Help(group in whitelist))
    else if m == reminder + "本群音乐解析加白" then
      if !perm then (whitelist, NoPermission)
      else if group !in whitelist then (whitelist + {group}, Added)
      else (whitelist, AlreadyListed)
    else if m == reminder + "本群音乐解析删白" then
      if !perm then (whitelist, NoPermission)
      else if group in whitelist then (whitelist - {group}, Removed)
      else (whitelist, NotListed)
    else
      var link := FindLink(m, 0);
      if group in whitelist then (whitelist, if link.Some? then ListedNotice else Unhandled)
      else (whitelist, if link.Some? then Parse(link.value) else Unhandled)
  }

  /** The plugin's module-level whitelist of group ids. */
  class MusicPlugin {
    var whitelist: set<string>

    /** The whitelist as loaded: every non-empty stripped line. */
    constructor(lines: seq<string>)
      ensures whitelist == set l | l in lines && Strip(l) != [] :: Strip(l)
    {
      whitelist := set l | l in lines && Strip(l) != [] :: Strip(l);
    }

    /** `on_message`, up to the start of parsing. */
    method OnMessage(message: string, group: string, perm: bool, reminder: string) returns (answer: Answer)
      modifies this
      ensures (whitelist, answer) == Handle(old(whitelist), Strip(message), group, perm, reminder)
    {
      var m := Strip(message);
      if m == reminder + "汽水音乐解析帮助" {
        return Help(group in whitelist);
      }
      if m == reminder + "本群音乐解析加白" {
        if !perm {
          return NoPermission;
        }
        if group !in whitelist {
          whitelist := whitelist + {group};
          return Added;
        }
        return AlreadyListed;
      }
      if m == reminder + "本群音乐解析删白" {
        if !perm {
          return NoPermission;
        }
        if group in whitelist {
          whitelist := whitelist - {group};
          return Removed;
        }
        return NotListed;
      }
      var link := FindLink(m, 0);
      if group in whitelist {
        if link.Some? {
          return ListedNotice;
        }
        return Unhandled;
      }
      if link.Some? {
        return Parse(link.value);
      }
      return Unhandled;
    }
  }

  /** Adding a listed group or removing an unlisted one changes nothing;
      otherwise the group's membership flips, and no other group's
      membership changes. */
  lemma WhitelistCommands(w: set<string>, group: string, reminder: string, other: string)
    requires other != group
    ensures var (w1, a1) := Handle(w, reminder + "本群音乐解析加白", group, true, reminder);
            group in w1 && (other in w1 <==> other in w) && (group in w <==> a1 == AlreadyListed)
    ensures var (w2, a2) := Handle(w, reminder + "本群音乐解析删白", group, true, reminder);
            group !in w2 && (other in w2 <==> other in w) && (group !in w <==> a2 == NotListed)
  {
    var add := reminder + "本群音乐解析加白";
    var del := reminder + "本群音乐解析删白";
    CommandsDiffer(reminder);
  }

  /** The three command texts differ, whatever the prefix. */
  lemma CommandsDiffer(reminder: string)
    ensures reminder + "本群音乐解析加白" != reminder + "汽水音乐解析帮助"
    ensures reminder + "本群音乐解析删白" != reminder + "汽水音乐解析帮助"
    ensures reminder + "本群音乐解析删白" != reminder + "本群音乐解析加白"
  {
    var help := reminder + "汽水音乐解析帮助";
    var add := reminder + "本群音乐解析加白";
    var del := reminder + "本群音乐解析删白";
    assert help[|reminder|] == '汽' && add[|reminder|] == '本';
    assert del[|reminder| + 6] == '删' && add[|reminder| + 6] == '加';
  }

  /** Adding twice is adding once; adding then removing leaves the group
      unlisted. */
  lemma AddIdempotent(w: set<string>, group: string, reminder: string)
    ensures var w1 := Handle(w, reminder + "本群音乐解析加白", group, true, reminder).0;
            Handle(w1, reminder + "本群音乐解析加白", group, true, reminder).0 == w1
    ensures var w1 := Handle(w, reminder + "本群音乐解析加白", group, true, reminder).0;
            Handle(w1, reminder + "本群音乐解析删白", group, true, reminder).0 == w - {group}
  {
    CommandsDiffer(reminder);
  }

  /** Without permission the commands change nothing. */
  lemma NoPermissionNoChange(w: set<string>, m: string, group: string, reminder: string)
    ensures Handle(w, m, group, false, reminder).0 == w
  {
  }

  /** In a listed group, a message with a link gets only the notice, and a
      message without one is not handled; nothing is ever parsed there. */
  lemma ListedGroupGate(w: set<string>, m: string, group: string, perm: bool, reminder: string)
    requires group in w
    requires m != reminder + "汽水音乐解析帮助" && m != reminder + "本群音乐解析加白" && m != reminder + "本群音乐解析删白"
    ensures Handle(w, m, group, perm, reminder).1 == (if FindLink(m, 0).Some? then ListedNotice else Unhandled)
    ensures !Handle(w, m, group, perm, reminder).1.Parse?
  {
  }

  /** Only texts with a link are parsed, in an unlisted group, and the link
      parsed is the first one in the text. */
  lemma ParseOnlyLinks(w: set<string>, m: string, group: string, perm: bool, reminder: string)
    ensures Handle(w, m, group, perm, reminder).1.Parse? ==>
              group !in w && exists k :: 0 <= k <= |m| && LinkAt(m, k).Some?
                                          && Handle(w, m, group, perm, reminder).1.link == m[k..LinkAt(m, k).value]
                                          && forall j :: 0 <= j < k ==> LinkAt(m, j).None?
  {
    var a := Handle(w, m, group, perm, reminder).1;
    if a.Parse? {
      assert a == Parse(FindLink(m, 0).value);
      FindLinkLeftmost(m, 0);
    }
  }
}
