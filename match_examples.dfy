/** Three scans worked out on the reference semantics of `MatchSpec`:
    an overlap of two words, the classic four-word lexicon, and a lexicon
    whose third-level suffix word is missed because only the fail target's
    own word is carried into an output list. Each `...From` lemma takes one
    step of a scan: the state it starts in, the rest of the text, and what
    the scan records from there. */
module MatchExamples {
  import opened MatchSpec

  /** One step of the reference scan, with the character read, the new
      state and the words recorded there spelled out. */
  lemma Step(words: set<string>, states: set<string>, p: string, c: char, rest: string, read: string,
             q: string, hit: set<string>)
    requires read == p + [c] && LongestIn(states, read) == q && Hit(words, states, q) == hit
    ensures ScanSpec(words, states, p, [c] + rest) == hit + ScanSpec(words, states, q, rest)
  {
    assert ([c] + rest)[1..] == rest;
  }

  // -----------------------------------------------------------------------
  // "xcabx" over {"ab", "cab"}: both words, the shorter through the output
  // list of the node for "cab"

  const Overlap: set<string> := {"ab", "cab"}
  const OverlapStates: set<string> := {"", "a", "ab", "c", "ca", "cab"}

  lemma OverlapPrefixes()
    ensures Prefixes(Overlap) == OverlapStates
  {
    var w1: string, w2: string := "ab", "cab";
    assert w1[..0] == "" && w1[..1] == "a" && w1[..2] == "ab";
    assert w2[..0] == "" && w2[..1] == "c" && w2[..2] == "ca" && w2[..3] == "cab";
  }

  lemma OverlapFrom4(words: set<string>, states: set<string>)
    requires words == Overlap && states == OverlapStates
    ensures ScanSpec(words, states, "cab", "x") == {}
  {
    assert LongestIn(states, "") == "";
    assert LongestIn(states, "x") == "";
    assert LongestIn(states, "bx") == "";
    assert LongestIn(states, "abx") == "";
    assert LongestIn(states, "cabx") == "";
    assert "" !in words;
    assert "x" == ['x'] + "";
    Step(words, states, "cab", 'x', "", "cabx", "", {});
  }

  lemma OverlapFrom3(words: set<string>, states: set<string>)
    requires words == Overlap && states == OverlapStates
    ensures ScanSpec(words, states, "ca", "bx") == {"ab", "cab"}
  {
    assert LongestIn(states, "cab") == "cab";
    assert "cab"[1..] == "ab";
    assert LongestIn(states, "ab") == "ab";
    assert "ab" in words;
    assert "cab" in words;
    assert "bx" == ['b'] + "x";
    OverlapFrom4(words, states);
    Step(words, states, "ca", 'b', "x", "cab", "cab", {"ab", "cab"});
  }

  lemma OverlapFrom2(words: set<string>, states: set<string>)
    requires words == Overlap && states == OverlapStates
    ensures ScanSpec(words, states, "c", "abx") == {"ab", "cab"}
  {
    assert LongestIn(states, "ca") == "ca";
    assert "ca"[1..] == "a";
    assert LongestIn(states, "a") == "a";
    assert "a" !in words;
    assert "ca" !in words;
    assert "abx" == ['a'] + "bx";
    OverlapFrom3(words, states);
    Step(words, states, "c", 'a', "bx", "ca", "ca", {});
  }

  lemma OverlapFrom1(words: set<string>, states: set<string>)
    requires words == Overlap && states == OverlapStates
    ensures ScanSpec(words, states, "", "cabx") == {"ab", "cab"}
  {
    assert LongestIn(states, "c") == "c";
    assert "c"[1..] == "";
    assert LongestIn(states, "") == "";
    assert "" !in words;
    assert "c" !in words;
    assert "cabx" == ['c'] + "abx";
    OverlapFrom2(words, states);
    Step(words, states, "", 'c', "abx", "c", "c", {});
  }

  /** Both words are reported, the shorter one from the output list of the node for "cab". */
  lemma OverlapExample()
    ensures Reported(Overlap, "xcabx") == {"ab", "cab"}
  {
    OverlapPrefixes();
    OverlapScan(Overlap, OverlapStates);
  }

  lemma OverlapScan(words: set<string>, states: set<string>)
    requires words == Overlap && states == OverlapStates
    ensures ScanSpec(words, states, "", "xcabx") == {"ab", "cab"}
  {
    assert LongestIn(states, "") == "";
    assert LongestIn(states, "x") == "";
    assert "" !in words;
    assert "xcabx" == ['x'] + "cabx";
    OverlapFrom1(words, states);
    Step(words, states, "", 'x', "cabx", "x", "", {});
  }

  // -----------------------------------------------------------------------
  // "ushers" over {"he", "she", "his", "hers"}: "she" and "he" at the same
  // position, then "hers" after a fail transition

  const Ushers: set<string> := {"he", "she", "his", "hers"}
  const UshersStates: set<string> := {"", "h", "he", "her", "hers", "hi", "his", "s", "sh", "she"}

  lemma UshersPrefixes()
    ensures Prefixes(Ushers) == UshersStates
  {
    var w1: string, w2: string, w3: string, w4: string := "he", "she", "his", "hers";
    assert w1[..0] == "" && w1[..1] == "h" && w1[..2] == "he";
    assert w2[..0] == "" && w2[..1] == "s" && w2[..2] == "sh" && w2[..3] == "she";
    assert w3[..0] == "" && w3[..1] == "h" && w3[..2] == "hi" && w3[..3] == "his";
    assert w4[..0] == "" && w4[..1] == "h" && w4[..2] == "he" && w4[..3] == "her" && w4[..4] == "hers";
  }

  lemma UshersFrom5(words: set<string>, states: set<string>)
    requires words == Ushers && states == UshersStates
    ensures ScanSpec(words, states, "her", "s") == {"hers"}
  {
    assert LongestIn(states, "hers") == "hers";
    assert "hers"[1..] == "ers";
    assert LongestIn(states, "s") == "s";
    assert LongestIn(states, "rs") == "s";
    assert LongestIn(states, "ers") == "s";
    assert "s" !in words;
    assert "hers" in words;
    assert "s" == ['s'] + "";
    Step(words, states, "her", 's', "", "hers", "hers", {"hers"});
  }

  lemma UshersFrom4(words: set<string>, states: set<string>)
    requires words == Ushers && states == UshersStates
    ensures ScanSpec(words, states, "she", "rs") == {"hers"}
  {
    assert LongestIn(states, "her") == "her";
    assert LongestIn(states, "sher") == "her";
    assert "her"[1..] == "er";
    assert LongestIn(states, "") == "";
    assert LongestIn(states, "r") == "";
    assert LongestIn(states, "er") == "";
    assert "" !in words;
    assert "her" !in words;
    assert "rs" == ['r'] + "s";
    UshersFrom5(words, states);
    Step(words, states, "she", 'r', "s", "sher", "her", {});
  }

  lemma UshersFrom3(words: set<string>, states: set<string>)
    requires words == Ushers && states == UshersStates
    ensures ScanSpec(words, states, "sh", "ers") == {"he", "hers", "she"}
  {
    assert LongestIn(states, "she") == "she";
    assert "she"[1..] == "he";
    assert LongestIn(states, "he") == "he";
    assert "he" in words;
    assert "she" in words;
    assert "ers" == ['e'] + "rs";
    UshersFrom4(words, states);
    Step(words, states, "sh", 'e', "rs", "she", "she", {"he", "she"});
  }

  lemma UshersFrom2(words: set<string>, states: set<string>)
    requires words == Ushers && states == UshersStates
    ensures ScanSpec(words, states, "s", "hers") == {"he", "hers", "she"}
  {
    assert LongestIn(states, "sh") == "sh";
    assert "sh"[1..] == "h";
    assert LongestIn(states, "h") == "h";
    assert "h" !in words;
    assert "sh" !in words;
    assert "hers" == ['h'] + "ers";
    UshersFrom3(words, states);
    Step(words, states, "s", 'h', "ers", "sh", "sh", {});
  }

  lemma UshersFrom1(words: set<string>, states: set<string>)
    requires words == Ushers && states == UshersStates
    ensures ScanSpec(words, states, "", "shers") == {"he", "hers", "she"}
  {
    assert LongestIn(states, "s") == "s";
    assert "s"[1..] == "";
    assert LongestIn(states, "") == "";
    assert "" !in words;
    assert "s" !in words;
    assert "shers" == ['s'] + "hers";
    UshersFrom2(words, states);
    Step(words, states, "", 's', "hers", "s", "s", {});
  }

  /** The three words that occur are reported: "she" and "he" at the same position, then "hers". */
  lemma UshersExample()
    ensures Reported(Ushers, "ushers") == {"he", "hers", "she"}
  {
    UshersPrefixes();
    UshersScan(Ushers, UshersStates);
  }

  lemma UshersScan(words: set<string>, states: set<string>)
    requires words == Ushers && states == UshersStates
    ensures ScanSpec(words, states, "", "ushers") == {"he", "hers", "she"}
  {
    assert LongestIn(states, "") == "";
    assert LongestIn(states, "u") == "";
    assert "" !in words;
    assert "ushers" == ['u'] + "shers";
    UshersFrom1(words, states);
    Step(words, states, "", 'u', "shers", "u", "", {});
  }

  // -----------------------------------------------------------------------
  // "abc" over {"c", "bc", "abc"}: the node for "abc" fails to "bc" and
  // carries "bc" only, so "c" is not reported although it occurs

  const Nested: set<string> := {"c", "bc", "abc"}
  const NestedStates: set<string> := {"", "a", "ab", "abc", "b", "bc", "c"}

  lemma NestedPrefixes()
    ensures Prefixes(Nested) == NestedStates
  {
    var w1: string, w2: string, w3: string := "c", "bc", "abc";
    assert w1[..0] == "" && w1[..1] == "c";
    assert w2[..0] == "" && w2[..1] == "b" && w2[..2] == "bc";
    assert w3[..0] == "" && w3[..1] == "a" && w3[..2] == "ab" && w3[..3] == "abc";
  }

  lemma NestedFrom2(words: set<string>, states: set<string>)
    requires words == Nested && states == NestedStates
    ensures ScanSpec(words, states, "ab", "c") == {"abc", "bc"}
  {
    assert LongestIn(states, "abc") == "abc";
    assert "abc"[1..] == "bc";
    assert LongestIn(states, "bc") == "bc";
    assert "bc" in words;
    assert "abc" in words;
    assert "c" == ['c'] + "";
    Step(words, states, "ab", 'c', "", "abc", "abc", {"abc", "bc"});
  }

  lemma NestedFrom1(words: set<string>, states: set<string>)
    requires words == Nested && states == NestedStates
    ensures ScanSpec(words, states, "a", "bc") == {"abc", "bc"}
  {
    assert LongestIn(states, "ab") == "ab";
    assert "ab"[1..] == "b";
    assert LongestIn(states, "b") == "b";
    assert "b" !in words;
    assert "ab" !in words;
    assert "bc" == ['b'] + "c";
    NestedFrom2(words, states);
    Step(words, states, "a", 'b', "c", "ab", "ab", {});
  }

  /** The node for "abc" fails to the node for "bc" and carries only its word, so "c" is not reported although it occurs. */
  lemma NestedExample()
    ensures Reported(Nested, "abc") == {"abc", "bc"}
    ensures "c" !in Reported(Nested, "abc")
  {
    NestedPrefixes();
    NestedScan(Nested, NestedStates);
  }

  lemma NestedScan(words: set<string>, states: set<string>)
    requires words == Nested && states == NestedStates
    ensures ScanSpec(words, states, "", "abc") == {"abc", "bc"}
  {
    assert LongestIn(states, "a") == "a";
    assert "a"[1..] == "";
    assert LongestIn(states, "") == "";
    assert "" !in words;
    assert "a" !in words;
    assert "abc" == ['a'] + "bc";
    NestedFrom1(words, states);
    Step(words, states, "", 'a', "bc", "a", "a", {});
  }
}
