/** What the multi-pattern scan of GuardianWords reports, stated on strings
    alone, without the trie.

    The scan's states are the prefixes of the lexicon words. After each
    character the state is the longest suffix of the text read so far that
    is a state. On reaching a state the scan records the state itself when
    it is a word, and the longest proper suffix of the state that is a
    state, when that one is a word. This second rule is one level of the
    fail chain and no more: only the fail target's word is appended to a
    node's output. */
module MatchSpec {
  import opened Strings

  /** The empty string and every prefix of every word. */
  ghost function Prefixes(words: set<string>): set<string> {
    {[]} + set w, k | w in words && 0 <= k <= |w| :: w[..k]
  }

  /** The longest suffix of `s` that lies in `known`, or the empty string
      when there is none. */
  ghost function LongestIn(known: set<string>, s: string): string
    decreases |s|
  {
    if s in known || s == [] then s else LongestIn(known, s[1..])
  }

  /** The words recorded on reaching the state `p`. */
  ghost function Hit(words: set<string>, states: set<string>, p: string): set<string> {
    (if p in words then {p} else {})
    + (if p != [] && LongestIn(states, p[1..]) in words then {LongestIn(states, p[1..])} else {})
  }

  /** The words a scan of `text` records when it starts in state `p`. */
  ghost function ScanSpec(words: set<string>, states: set<string>, p: string, text: string): set<string>
    decreases |text|
  {
    if text == [] then {}
    else
      var q := LongestIn(states, p + [text[0]]);
      Hit(words, states, q) + ScanSpec(words, states, q, text[1..])
  }

  /** The words a scan of `text` reports for the lexicon `words`. */
  ghost function Reported(words: set<string>, text: string): set<string> {
    ScanSpec(words, Prefixes(words), [], text)
  }

  /** `LongestIn` is a suffix of `s`, lies in `known` unless it is empty,
      and no longer suffix of `s` lies in `known`. */
  lemma {:induction false} LongestInSpec(known: set<string>, s: string)
    ensures IsSuffix(LongestIn(known, s), s)
    ensures LongestIn(known, s) in known || LongestIn(known, s) == []
    ensures forall t | t in known && IsSuffix(t, s) :: |t| <= |LongestIn(known, s)|
    decreases |s|
  {
    if !(s in known || s == []) {
      LongestInSpec(known, s[1..]);
      var r := LongestIn(known, s[1..]);
      assert s[|s| - |r|..] == s[1..][|s| - 1 - |r|..];
      forall t | t in known && IsSuffix(t, s) ensures |t| <= |r| {
        assert t != s;
        assert s[1..][|s| - 1 - |t|..] == s[|s| - |t|..];
      }
    }
  }

  /** An empty lexicon reports nothing. */
  lemma {:induction false} NothingWithoutWords(states: set<string>, p: string, text: string)
    ensures ScanSpec({}, states, p, text) == {}
    decreases |text|
  {
    if text != [] {
      NothingWithoutWords(states, LongestIn(states, p + [text[0]]), text[1..]);
    }
  }

  /** Every reported word is a word of the lexicon. */
  lemma {:induction false} ReportedAreWords(words: set<string>, states: set<string>, p: string, text: string)
    ensures ScanSpec(words, states, p, text) <= words
    decreases |text|
  {
    if text != [] {
      ReportedAreWords(words, states, LongestIn(states, p + [text[0]]), text[1..]);
    }
  }
}
