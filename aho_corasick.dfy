/** The multi-pattern matcher of GuardianWords: a trie of lexicon words with
    fail links computed breadth-first, and a one-pass scan that reports the
    word ending at every node it reaches plus that node's output list.

    The trie is a table of node records addressed by index (index 0 is the
    root). The ghost fields say which string each node spells (`paths`) and
    which node it hangs from (`parents`). */
module AhoCorasick {
  import opened Wrappers
  import opened Strings
  import opened MatchSpec

  /** One trie node. `fail` is None until a build sets it (and stays None at
      the root); `word` is "" until the node becomes the end of a word. */
  datatype Node = Node(children: map<char, nat>, fail: Option<nat>, isEnd: bool, word: string, output: seq<string>)

  const EmptyNode := Node(map[], None, false, "", [])

  ghost predicate IsProperSuffix(s: string, t: string) {
    |s| < |t| && t[|t| - |s|..] == s
  }

  /** The words the trie holds: those of its end nodes. */
  ghost function Words(nodes: seq<Node>): set<string> {
    set i | 0 <= i < |nodes| && nodes[i].isEnd :: nodes[i].word
  }

  ghost predicate ChildOk(nodes: seq<Node>, paths: seq<string>, i: nat, c: char)
    requires i < |nodes| == |paths| && c in nodes[i].children
  {
    var j := nodes[i].children[c];
    0 < j < |nodes| && paths[j] == paths[i] + [c]
  }

  ghost predicate FailOk(nodes: seq<Node>, paths: seq<string>, i: nat)
    requires i < |nodes| == |paths| && nodes[i].fail.Some?
  {
    var f := nodes[i].fail.value;
    f < |nodes| && IsProperSuffix(paths[f], paths[i])
  }

  /** Child edges extend the parent's string by their character, and every
      fail link that is set points at a node spelling a proper suffix. */
  ghost predicate Linked(nodes: seq<Node>, paths: seq<string>) {
    && |paths| == |nodes| > 0
    && paths[0] == []
    && (forall i: nat, c {:trigger ChildOk(nodes, paths, i, c)} | i < |nodes| && c in nodes[i].children ::
          ChildOk(nodes, paths, i, c))
    && (forall i: nat {:trigger FailOk(nodes, paths, i)} | i < |nodes| && nodes[i].fail.Some? ::
          FailOk(nodes, paths, i))
  }

  ghost predicate HasParent(nodes: seq<Node>, paths: seq<string>, parents: seq<nat>, i: nat)
    requires 0 < i < |nodes| == |paths| == |parents|
  {
    var p := parents[i];
    p < |nodes| && |paths[i]| > 0 && paths[i][|paths[i]| - 1] in nodes[p].children
    && nodes[p].children[paths[i][|paths[i]| - 1]] == i
  }

  ghost predicate Apart(paths: seq<string>, i: nat, j: nat)
    requires i < |paths| && j < |paths|
  {
    i != j ==> paths[i] != paths[j]
  }

  ghost predicate EndOk(nodes: seq<Node>, paths: seq<string>, i: nat)
    requires i < |nodes| == |paths|
  {
    nodes[i].isEnd ==> nodes[i].word == paths[i] && paths[i] != []
  }

  ghost predicate OutputOk(nodes: seq<Node>, paths: seq<string>, i: nat)
    requires i < |nodes| == |paths|
  {
    forall w | w in nodes[i].output :: IsProperSuffix(w, paths[i]) && w in Words(nodes)
  }

  /** The table is a tree: every non-root node hangs from a parent, no two
      nodes spell the same string, end nodes carry the (non-empty) word they
      spell, and output lists hold only held words that are proper suffixes
      of the node's string. */
  ghost predicate Shaped(nodes: seq<Node>, paths: seq<string>, parents: seq<nat>) {
    && Linked(nodes, paths)
    && |parents| == |nodes|
    && (forall i: nat {:trigger HasParent(nodes, paths, parents, i)} | 0 < i < |nodes| ::
          HasParent(nodes, paths, parents, i))
    && (forall i: nat, j: nat {:trigger Apart(paths, i, j)} | i < |nodes| && j < |nodes| :: Apart(paths, i, j))
    && (forall i: nat {:trigger EndOk(nodes, paths, i)} | i < |nodes| :: EndOk(nodes, paths, i))
    && (forall i: nat {:trigger OutputOk(nodes, paths, i)} | i < |nodes| :: OutputOk(nodes, paths, i))
  }

  /** Every node except the root has its fail link. */
  ghost predicate Built(nodes: seq<Node>) {
    forall i: nat | 0 < i < |nodes| :: nodes[i].fail.Some?
  }

  ghost predicate NoOutputs(nodes: seq<Node>) {
    forall i: nat | i < |nodes| :: nodes[i].output == []
  }

  /** What a build appends to a node's output: the word of its fail target,
      if that target ends a word, and nothing else. */
  ghost function FailWord(nodes: seq<Node>, i: nat): seq<string>
    requires i < |nodes| && nodes[i].fail.Some? && nodes[i].fail.value < |nodes|
  {
    var f := nodes[i].fail.value;
    if nodes[f].isEnd then [nodes[f].word] else []
  }

  /** `t` spells a suffix of `x`'s string at least as long as every proper
      suffix that some node spells. */
  ghost predicate LongestTarget(paths: seq<string>, x: nat, t: nat)
    requires x < |paths| && t < |paths|
  {
    forall j: nat | j < |paths| && IsProperSuffix(paths[j], paths[x]) :: |paths[j]| <= |paths[t]|
  }

  /** The fail link of `x` points at the node spelling the longest proper
      suffix of `x`'s string that any node spells. */
  ghost predicate Longest(nodes: seq<Node>, paths: seq<string>, x: nat)
    requires x < |nodes| == |paths|
  {
    nodes[x].fail.Some? && nodes[x].fail.value < |nodes| && LongestTarget(paths, x, nodes[x].fail.value)
  }

  /** Every non-root fail link is the longest one. */
  ghost predicate FailsLongest(nodes: seq<Node>, paths: seq<string>)
    requires |nodes| == |paths|
  {
    forall x: nat | 0 < x < |nodes| :: Longest(nodes, paths, x)
  }

  /** Every non-root node spelling at most `d` characters has its longest fail link. */
  ghost predicate LongestUpTo(nodes: seq<Node>, paths: seq<string>, d: nat)
    requires |nodes| == |paths|
  {
    forall x: nat | 0 < x < |nodes| && |paths[x]| <= d :: Longest(nodes, paths, x)
  }

  /** Every non-root node that ends no word has a child: the trie holds
      the prefixes of its words and nothing else. */
  ghost predicate Pruned(nodes: seq<Node>) {
    forall k: nat | 0 < k < |nodes| :: nodes[k].isEnd || nodes[k].children != map[]
  }

  /** Each non-root output list is exactly its fail target's word, if any. */
  ghost predicate FreshOutputs(nodes: seq<Node>) {
    forall k: nat | 0 < k < |nodes| ::
      nodes[k].fail.Some? && nodes[k].fail.value < |nodes| && nodes[k].output == FailWord(nodes, k)
  }

  ghost predicate SameSkeleton(a: seq<Node>, b: seq<Node>) {
    |a| == |b|
    && forall k: nat | k < |a| ::
         a[k].children == b[k].children && a[k].isEnd == b[k].isEnd && a[k].word == b[k].word
  }

  // -----------------------------------------------------------------------
  // The scan, as functions over a built table

  /** Follow fail links from `cur` until a node with a `c` edge, or the root. */
  ghost function Follow(nodes: seq<Node>, paths: seq<string>, cur: nat, c: char): (r: nat)
    requires Linked(nodes, paths) && Built(nodes) && cur < |nodes|
    ensures r < |nodes| && IsSuffix(paths[r], paths[cur])
    ensures r == 0 || c in nodes[r].children
    decreases |paths[cur]|
  {
    if cur == 0 || c in nodes[cur].children then cur
    else
      assert FailOk(nodes, paths, cur);
      var f := nodes[cur].fail.value;
      var r := Follow(nodes, paths, f, c);
      SuffixTrans(paths[r], paths[f], paths[cur]);
      r
  }

  /** The words recorded on reaching a node. */
  ghost function Reports(n: Node): set<string> {
    (if n.isEnd then {n.word} else {}) + (set w | w in n.output)
  }

  /** The words a scan of `text` records when it starts at node `cur`. */
  ghost function ScanFrom(nodes: seq<Node>, paths: seq<string>, text: string, cur: nat): set<string>
    requires Linked(nodes, paths) && Built(nodes) && cur < |nodes|
    decreases |text|
  {
    if text == [] then {}
    else
      var f := Follow(nodes, paths, cur, text[0]);
      if text[0] in nodes[f].children then
        assert ChildOk(nodes, paths, f, text[0]);
        var n := nodes[f].children[text[0]];
        Reports(nodes[n]) + ScanFrom(nodes, paths, text[1..], n)
      else
        ScanFrom(nodes, paths, text[1..], f)
  }

  // -----------------------------------------------------------------------
  // The automaton

  class Automaton {
    var nodes: seq<Node>
    var isBuilt: bool
    var wordCount: nat
    ghost var paths: seq<string>
    ghost var parents: seq<nat>

    ghost predicate Valid()
      reads this
    {
      && Shaped(nodes, paths, parents) && Pruned(nodes)
      && wordCount == |Words(nodes)| && (isBuilt ==> Built(nodes))
    }

    /** What a fresh build from an empty output state leaves: every non-root
        node linked to its longest target, with its target's word, if any,
        as its output. */
    ghost predicate Canonical()
      reads this
    {
      isBuilt && |nodes| == |paths| && FailsLongest(nodes, paths) && FreshOutputs(nodes)
    }

    /** A fresh automaton: the root alone, nothing held, not built. */
    constructor ()
      ensures Valid() && !isBuilt && wordCount == 0
      ensures Words(nodes) == {} && NoOutputs(nodes)
    {
      nodes := [EmptyNode];
      paths := [[]];
      parents := [0];
      isBuilt := false;
      wordCount := 0;
      new;
      assert Words(nodes) == {};
    }

    /** `add_word`: insert `word` into the trie, creating nodes on demand;
        count it only if its end node was not an end already; always
        invalidate the build. The empty word is ignored. */
    method AddWord(word: string)
      requires Valid()
      modifies this
      ensures Valid()
      ensures word == [] ==> nodes == old(nodes) && isBuilt == old(isBuilt) && wordCount == old(wordCount)
      ensures word != [] ==> Words(nodes) == Words(old(nodes)) + {word} && !isBuilt
      ensures word != [] ==> wordCount == old(wordCount) + (if word in Words(old(nodes)) then 0 else 1)
      ensures NoOutputs(old(nodes)) ==> NoOutputs(nodes)
    {
      if word == [] {
        return;
      }
      var node := Walk(word);
      if !nodes[node].isEnd {
        MarkEndKeepsShape(nodes, paths, parents, node);
        nodes := nodes[node := nodes[node].(isEnd := true, word := word)];
        wordCount := wordCount + 1;
      } else {
        assert EndOk(nodes, paths, node);
        assert word in Words(nodes);
      }
      isBuilt := false;
    }

    /** The loop of `add_word`: walk down the trie along `word`, creating the
        missing nodes, and return the node that spells it. */
    method Walk(word: string) returns (node: nat)
      requires Shaped(nodes, paths, parents) && Pruned(nodes) && word != []
      modifies this
      ensures Shaped(nodes, paths, parents) && PrunedBut(nodes, node)
      ensures 0 < node < |nodes| && paths[node] == word
      ensures Words(nodes) == Words(old(nodes)) && wordCount == old(wordCount) && isBuilt == old(isBuilt)
      ensures NoOutputs(old(nodes)) ==> NoOutputs(nodes)
    {
      node := 0;
      var i := 0;
      while i < |word|
        invariant 0 <= i <= |word|
        invariant Shaped(nodes, paths, parents) && PrunedBut(nodes, node)
        invariant node < |nodes| && paths[node] == word[..i]
        invariant Words(nodes) == Words(old(nodes))
        invariant NoOutputs(old(nodes)) ==> NoOutputs(nodes)
        invariant wordCount == old(wordCount) && isBuilt == old(isBuilt)
      {
        var c := word[i];
        if c !in nodes[node].children {
          AddChildKeepsShape(nodes, paths, parents, node, c);
          nodes := WithChild(nodes, node, c);
          paths := paths + [paths[node] + [c]];
          parents := parents + [node];
        }
        assert ChildOk(nodes, paths, node, c);
        node := nodes[node].children[c];
        i := i + 1;
      }
      assert word[..i] == word;
    }

    /** `build_fail`: give every non-root node its fail link, breadth-first,
        and append to its output the word of its fail target when that
        target is an end node. Only that one word is appended: the target's
        own output is not copied. */
    method BuildFail()
      requires Valid()
      modifies this
      ensures Valid() && isBuilt
      ensures wordCount == old(wordCount) && paths == old(paths) && parents == old(parents)
      ensures SameSkeleton(nodes, old(nodes)) && Words(nodes) == Words(old(nodes))
      ensures nodes[0] == old(nodes)[0]
      ensures forall k: nat | 0 < k < |nodes| ::
                nodes[k].fail.Some? && nodes[k].fail.value < |nodes|
                && nodes[k].output == old(nodes)[k].output + FailWord(nodes, k)
      ensures FailsLongest(nodes, paths)
    {
      ghost var old0 := nodes;
      var queue: seq<nat>;
      ghost var visited: set<nat>;
      queue, visited := LinkDepthOne();
      ghost var done: set<nat> := {0};
      BfsStart(old0, nodes, paths, parents, queue, visited);
      while queue != []
        invariant paths == old(paths) && parents == old(parents) && wordCount == old(wordCount)
        invariant BfsInv(old0, nodes, paths, parents, queue, visited, done)
        decreases Unvisited(|old0|, visited), |queue|
      {
        queue, visited, done := BfsRound(old0, queue, visited, done);
      }
      BfsEnd(old0, nodes, paths, parents, visited, done);
      isBuilt := true;
    }

    /** One round of the breadth-first loop of `build_fail`: dequeue the
        head, then link and queue its children. */
    method BfsRound(ghost old0: seq<Node>, queue0: seq<nat>, ghost visited0: set<nat>, ghost done0: set<nat>)
      returns (queue: seq<nat>, ghost visited: set<nat>, ghost done: set<nat>)
      requires BfsInv(old0, nodes, paths, parents, queue0, visited0, done0) && queue0 != []
      modifies this
      ensures paths == old(paths) && parents == old(parents) && wordCount == old(wordCount)
      ensures BfsInv(old0, nodes, paths, parents, queue, visited, done)
      ensures Unvisited(|old0|, visited) < Unvisited(|old0|, visited0)
              || (Unvisited(|old0|, visited) == Unvisited(|old0|, visited0) && |queue| < |queue0|)
    {
      var cur := queue0[0];
      ghost var d := |paths[cur]|;
      ChildrenUnvisited(old0, paths, parents, cur, visited0, done0);
      QueuePop(|old0|, parents, queue0, visited0, done0);
      LevelsPop(paths, queue0, d);
      done := done0 + {cur};
      queue, visited := ExpandNode(old0, cur, queue0[1..], visited0, done);
      if queue != [] {
        NextLevel(old0, paths, parents, queue, visited, done, d);
      }
    }

    /** The first loop of `build_fail`: every child of the root fails to
        the root and is queued. */
    method LinkDepthOne() returns (queue: seq<nat>, ghost visited: set<nat>)
      requires Shaped(nodes, paths, parents)
      modifies this
      ensures paths == old(paths) && parents == old(parents) && wordCount == old(wordCount)
      ensures BfsFrame(old(nodes), nodes, paths, parents)
      ensures QueueState(|nodes|, parents, queue, visited, {0}) && LinkState(old(nodes), nodes, visited)
      ensures Expanded(old(nodes), 0, visited)
      ensures LongestAt(nodes, paths, visited) && Levels(paths, queue, 0)
    {
      ghost var old0 := nodes;
      queue := [];
      visited := {};
      assert EndOk(nodes, paths, 0);
      SkeletonKeepsWords(nodes, nodes);
      ReachedNone(nodes, paths, parents, visited);
      var keys := nodes[0].children.Keys;
      while keys != {}
        invariant paths == old(paths) && parents == old(parents) && wordCount == old(wordCount)
        invariant ExpandInv(old0, nodes, paths, parents, 0, keys, [], queue, {}, visited, {0})
        decreases keys
      {
        var c :| c in keys;
        var child := LinkToRoot(old0, keys, c, queue, visited);
        queue := queue + [child];
        visited := visited + {child};
        keys := keys - {c};
      }
    }

    /** The body of the first loop of `build_fail`: the child of the root
        along `c` fails to the root and is recorded as visited. */
    method LinkToRoot(ghost old0: seq<Node>, ghost keys: set<char>, c: char, ghost queue: seq<nat>, ghost visited: set<nat>)
      returns (child: nat)
      requires ExpandInv(old0, nodes, paths, parents, 0, keys, [], queue, {}, visited, {0}) && c in keys
      modifies this
      ensures paths == old(paths) && parents == old(parents) && wordCount == old(wordCount) && isBuilt == old(isBuilt)
      ensures child == old0[0].children[c] && child < |old(nodes)|
      ensures nodes == old(nodes)[child := old(nodes)[child].(fail := Some(0))]
      ensures ExpandInv(old0, nodes, paths, parents, 0, keys - {c}, [], queue + [child], {}, visited + {child}, {0})
    {
      RootStep(old0, nodes, paths, parents, keys, c, queue, visited);
      child := nodes[0].children[c];
      nodes := nodes[child := nodes[child].(fail := Some(0))];
    }

    /** One round of the breadth-first loop of `build_fail`: link and queue
        every child of the dequeued node `cur`. */
    method ExpandNode(ghost old0: seq<Node>, cur: nat, queue0: seq<nat>, ghost visited0: set<nat>, ghost done: set<nat>)
      returns (queue: seq<nat>, ghost visited: set<nat>)
      requires Shaped(old0, paths, parents) && BfsFrame(old0, nodes, paths, parents)
      requires QueueState(|old0|, parents, queue0, visited0, done) && LinkState(old0, nodes, visited0)
      requires cur in done && cur in visited0
      requires forall k :: k in old0[cur].children ==> old0[cur].children[k] !in visited0
      requires forall x :: x in done && x != cur ==> Expanded(old0, x, visited0)
      requires LongestAt(nodes, paths, visited0)
      requires Levels(paths, queue0, |paths[cur]|) && Reached(paths, visited0, |paths[cur]|)
      modifies this
      ensures paths == old(paths) && parents == old(parents) && wordCount == old(wordCount)
      ensures BfsFrame(old0, nodes, paths, parents)
      ensures QueueState(|old0|, parents, queue, visited, done) && LinkState(old0, nodes, visited)
      ensures forall x :: x in done ==> Expanded(old0, x, visited)
      ensures old0[cur].children.Keys == {} ==> visited == visited0 && queue == queue0
      ensures old0[cur].children.Keys != {} ==> Unvisited(|old0|, visited) < Unvisited(|old0|, visited0)
      ensures LongestAt(nodes, paths, visited)
      ensures Levels(paths, queue, |paths[cur]|) && Reached(paths, visited, |paths[cur]|)
    {
      queue := queue0;
      visited := visited0;
      var cs := nodes[cur].children.Keys;
      while cs != {}
        invariant paths == old(paths) && parents == old(parents) && wordCount == old(wordCount)
        invariant ExpandInv(old0, nodes, paths, parents, cur, cs, queue0, queue, visited0, visited, done)
        decreases cs
      {
        var c :| c in cs;
        ChildParent(old0, paths, parents, cur, c);
        ReachedLongest(nodes, paths, visited, |paths[cur]|);
        ghost var n0 := nodes;
        var child := LinkChild(cur, c);
        ExpandStep(old0, n0, nodes, paths, parents, cur, cs, c, queue0, queue, visited0, visited, done);
        queue := queue + [child];
        visited := visited + {child};
        cs := cs - {c};
      }
      ExpandedGrows(old0, done, visited0, visited);
    }

    /** The body of the breadth-first loop of `build_fail` for one child of
        `cur`: chase fail links from the fail target of `cur` until one has
        an edge for `c`, link the child to that edge's node (to the root when
        the chase runs past it), and append the target's word to the child's
        output when the target ends a word. */
    method LinkChild(cur: nat, c: char) returns (child: nat)
      requires Shaped(nodes, paths, parents) && 0 < cur < |nodes| && c in nodes[cur].children
      requires LongestUpTo(nodes, paths, |paths[cur]|)
      modifies this
      ensures paths == old(paths) && parents == old(parents) && wordCount == old(wordCount) && isBuilt == old(isBuilt)
      ensures ChildOk(old(nodes), paths, cur, c) && child == old(nodes)[cur].children[c]
      ensures Shaped(nodes, paths, parents) && SameSkeleton(nodes, old(nodes)) && Words(nodes) == Words(old(nodes))
      ensures forall x: nat | x < |nodes| && x != child :: nodes[x] == old(nodes)[x]
      ensures Longest(nodes, paths, child)
      ensures nodes[child].output == old(nodes)[child].output + FailWord(nodes, child)
    {
      assert ChildOk(nodes, paths, cur, c);
      child := nodes[cur].children[c];
      assert HasParent(nodes, paths, parents, cur);
      var f := Chase(cur, c);
      if f.None? {
        assert EndOk(nodes, paths, 0);
        assert IsSuffix(paths[0], paths[cur][1..]);
        LinkLongest(nodes, paths, parents, cur, c, 0, -1);
        ShapedAfterFail(nodes, paths, parents, child, 0);
        nodes := nodes[child := nodes[child].(fail := Some(0))];
      } else {
        assert ChildOk(nodes, paths, f.value, c);
        var target := nodes[f.value].children[c];
        LinkLongest(nodes, paths, parents, cur, c, f.value, |paths[f.value]|);
        ExtendProperSuffix(paths[f.value], paths[cur], c);
        SetLink(child, target);
      }
    }

    /** Link `x` to `t`, and append `t`'s word to `x`'s output when `t` ends a word. */
    method SetLink(x: nat, t: nat)
      requires Shaped(nodes, paths, parents) && 0 < x < |nodes| && t < |nodes|
      requires IsProperSuffix(paths[t], paths[x])
      modifies this`nodes
      ensures Shaped(nodes, paths, parents) && SameSkeleton(nodes, old(nodes)) && Words(nodes) == Words(old(nodes))
      ensures forall y: nat | y < |nodes| && y != x :: nodes[y] == old(nodes)[y]
      ensures nodes[x].fail == Some(t) && nodes[x].output == old(nodes)[x].output + FailWord(nodes, x)
    {
      var output := nodes[x].output;
      if nodes[t].isEnd {
        output := output + [nodes[t].word];
      }
      ShapedAfterLink(nodes, paths, parents, x, t);
      nodes := nodes[x := nodes[x].(fail := Some(t), output := output)];
    }

    /** The chase of `build_fail`: from the fail target of `cur`, follow
        fail links while the node has no edge for `c`. None means the chase
        ran past the root; otherwise it stops at the first node with a `c`
        edge, and no node spelling a longer proper suffix of `cur`'s string
        has one. */
    method Chase(cur: nat, c: char) returns (f: Option<nat>)
      requires Shaped(nodes, paths, parents) && 0 < cur < |nodes| && paths[cur] != []
      requires LongestUpTo(nodes, paths, |paths[cur]|)
      ensures f.None? ==> NoEdgeAbove(nodes, paths, paths[cur][1..], -1, c)
      ensures f.Some? ==> f.value < |nodes| && c in nodes[f.value].children
                          && IsProperSuffix(paths[f.value], paths[cur]) && IsSuffix(paths[f.value], paths[cur][1..])
                          && NoEdgeAbove(nodes, paths, paths[cur][1..], |paths[f.value]|, c)
    {
      assert Longest(nodes, paths, cur);
      ChaseStart(nodes, paths, parents, cur, c);
      f := nodes[cur].fail;
      while f.Some? && c !in nodes[f.value].children
        invariant f.Some? ==> f.value < |nodes| && IsProperSuffix(paths[f.value], paths[cur])
                              && IsSuffix(paths[f.value], paths[cur][1..])
                              && NoEdgeAbove(nodes, paths, paths[cur][1..], |paths[f.value]|, c)
        invariant f.None? ==> NoEdgeAbove(nodes, paths, paths[cur][1..], -1, c)
        decreases if f.Some? then |paths[f.value]| + 1 else 0
      {
        ChaseStep(nodes, paths, parents, cur, c, f.value);
        f := nodes[f.value].fail;
      }
    }

    /** `search`: nothing on an empty text, an empty trie or an unbuilt
        automaton (no implicit build); otherwise one pass over `text`. */
    method Search(text: string) returns (matched: set<string>)
      requires Valid()
      ensures text == [] || wordCount == 0 || !isBuilt ==> matched == {}
      ensures text != [] && wordCount != 0 && isBuilt ==> matched == ScanFrom(nodes, paths, text, 0)
      ensures forall w :: w in matched ==> w in Words(nodes) && Contains(text, w)
      ensures Canonical() ==> matched == Reported(Words(nodes), text)
    {
      if text == [] || wordCount == 0 || !isBuilt {
        if wordCount == 0 {
          assert Words(nodes) == {};
          NothingWithoutWords(Prefixes(Words(nodes)), [], text);
        }
        return {};
      }
      matched := Scan(nodes, paths, text);
      ScanSoundFromRoot(nodes, paths, parents, text);
      if Canonical() {
        ScanExact(nodes, paths, parents, text, 0);
        PathsArePrefixes(nodes, paths, parents);
      }
    }
  }

  /** The loop of `search` over the characters of `text`, from the root. */
  method Scan(nodes: seq<Node>, ghost paths: seq<string>, text: string) returns (matched: set<string>)
    requires Linked(nodes, paths) && Built(nodes)
    ensures matched == ScanFrom(nodes, paths, text, 0)
  {
    matched := {};
    var cur: nat := 0;
    var i := 0;
    while i < |text|
      invariant 0 <= i <= |text| && cur < |nodes|
      invariant matched + ScanFrom(nodes, paths, text[i..], cur) == ScanFrom(nodes, paths, text, 0)
    {
      var c := text[i];
      ghost var from := cur;
      cur := FollowFail(nodes, paths, cur, c);
      ScanStep(nodes, paths, text[i..], from);
      assert text[i..][1..] == text[i + 1..];
      if c in nodes[cur].children {
        assert ChildOk(nodes, paths, cur, c);
        cur := nodes[cur].children[c];
        matched := AddReports(matched, nodes[cur]);
      }
      i := i + 1;
    }
    assert text[|text|..] == [];
  }

  /** The inner loop of `search`: back along fail links until a node with a
      `c` edge, or the root. */
  method FollowFail(nodes: seq<Node>, ghost paths: seq<string>, start: nat, c: char) returns (cur: nat)
    requires Linked(nodes, paths) && Built(nodes) && start < |nodes|
    ensures cur == Follow(nodes, paths, start, c)
  {
    cur := start;
    while cur != 0 && c !in nodes[cur].children
      invariant cur < |nodes| && Follow(nodes, paths, cur, c) == Follow(nodes, paths, start, c)
      decreases |paths[cur]|
    {
      assert FailOk(nodes, paths, cur);
      cur := nodes[cur].fail.value;
    }
  }

  /** The reporting step of `search`: the word of an end node, then every
      word of its output list. */
  method AddReports(matched: set<string>, n: Node) returns (found: set<string>)
    ensures found == matched + Reports(n)
  {
    found := matched;
    if n.isEnd {
      found := found + {n.word};
    }
    for k := 0 to |n.output|
      invariant found == matched + (if n.isEnd then {n.word} else {}) + (set j | 0 <= j < k :: n.output[j])
    {
      found := found + {n.output[k]};
    }
    assert (set j | 0 <= j < |n.output| :: n.output[j]) == set w | w in n.output;
  }

  /** One step of the scan, unfolded. */
  lemma ScanStep(nodes: seq<Node>, paths: seq<string>, text: string, cur: nat)
    requires Linked(nodes, paths) && Built(nodes) && cur < |nodes| && text != []
    ensures var f := Follow(nodes, paths, cur, text[0]);
            (text[0] in nodes[f].children ==> ChildOk(nodes, paths, f, text[0]))
            && ScanFrom(nodes, paths, text, cur)
            == if text[0] in nodes[f].children
               then Reports(nodes[nodes[f].children[text[0]]]) + ScanFrom(nodes, paths, text[1..], nodes[f].children[text[0]])
               else ScanFrom(nodes, paths, text[1..], f)
  {
    var f := Follow(nodes, paths, cur, text[0]);
    if text[0] in nodes[f].children {
      assert ChildOk(nodes, paths, f, text[0]);
    }
  }

  /** Soundness of a scan from the root. */
  lemma ScanSoundFromRoot(nodes: seq<Node>, paths: seq<string>, parents: seq<nat>, text: string)
    requires Shaped(nodes, paths, parents) && Built(nodes)
    ensures forall w :: w in ScanFrom(nodes, paths, text, 0) ==> w in Words(nodes) && Contains(text, w)
  {
    assert [] + text == text;
    ScanSound(nodes, paths, parents, [], text, 0);
  }

  /** Building the automaton afresh from a lexicon, as `refresh_ac_automaton`
      does: every word is lower-cased before insertion, then fail links are
      built. */
  method Refresh(lexicon: set<string>) returns (a: Automaton)
    ensures fresh(a) && a.Valid() && a.isBuilt && a.Canonical()
    ensures Words(a.nodes) == LowerAll(lexicon)
  {
    a := new Automaton();
    var rest := lexicon;
    while rest != {}
      invariant rest <= lexicon
      invariant a.Valid() && NoOutputs(a.nodes)
      invariant Words(a.nodes) == LowerAll(lexicon - rest)
      decreases rest
    {
      var w :| w in rest;
      a.AddWord(Lower(w));
      LowerAllStep(lexicon, rest, w);
      rest := rest - {w};
    }
    a.BuildFail();
  }

  /** The lower-cased non-empty words of a lexicon. */
  ghost function LowerAll(lexicon: set<string>): set<string> {
    set w | w in lexicon && w != [] :: Lower(w)
  }

  lemma LowerAllStep(lexicon: set<string>, rest: set<string>, w: string)
    requires w in rest && rest <= lexicon
    ensures LowerAll(lexicon - (rest - {w})) == LowerAll(lexicon - rest) + (if Lower(w) == [] then {} else {Lower(w)})
  {
    assert lexicon - (rest - {w}) == (lexicon - rest) + {w};
  }

  // -----------------------------------------------------------------------
  // Breadth-first build: the state its loops keep

  /** What a build may change: fail links and output lists only. */
  ghost predicate BfsFrame(old0: seq<Node>, nodes: seq<Node>, paths: seq<string>, parents: seq<nat>) {
    Shaped(nodes, paths, parents) && SameSkeleton(nodes, old0) && Words(nodes) == Words(old0)
  }

  /** `visited`: nodes ever queued; `done`: the root and the nodes dequeued.
      Queued nodes are distinct and pending, and a visited node's parent is
      done. */
  ghost predicate QueueState(n: nat, parents: seq<nat>, queue: seq<nat>, visited: set<nat>, done: set<nat>) {
    && |parents| == n
    && 0 in done && 0 !in visited
    && (forall x :: x in done ==> x < n)
    && (forall x :: x in visited ==> 0 < x < n && parents[x] in done)
    && (forall x :: x in visited ==> x in done || x in queue)
    && (forall x :: x in done && x != 0 ==> x in visited)
    && (forall k :: 0 <= k < |queue| ==> queue[k] in visited && queue[k] !in done)
    && (forall k, l :: 0 <= k < l < |queue| ==> queue[k] != queue[l])
  }

  /** A visited node has its fail link and its final output; any other node
      is as it was before the build. */
  ghost predicate LinkState(old0: seq<Node>, nodes: seq<Node>, visited: set<nat>) {
    && |old0| == |nodes|
    && (forall x: nat :: x in visited && x < |nodes| ==>
          nodes[x].fail.Some? && nodes[x].fail.value < |nodes|
          && nodes[x].output == old0[x].output + FailWord(nodes, x))
    && (forall x: nat :: x < |nodes| && x !in visited ==> nodes[x] == old0[x])
  }

  ghost predicate Expanded(nodes: seq<Node>, x: nat, visited: set<nat>)
    requires x < |nodes|
  {
    forall k :: k in nodes[x].children ==> nodes[x].children[k] in visited
  }

  ghost function Unvisited(n: nat, visited: set<nat>): set<nat> {
    set x | 0 <= x < n && x !in visited
  }

  lemma UnvisitedShrinks(n: nat, v0: set<nat>, v: set<nat>, x: nat)
    requires v0 <= v && x < n && x !in v
    ensures Unvisited(n, v + {x}) < Unvisited(n, v0)
  {
    assert x in Unvisited(n, v0) && x !in Unvisited(n, v + {x});
  }

  // -----------------------------------------------------------------------
  // Lemmas about the table

  lemma SuffixTrans(a: string, b: string, c: string)
    requires IsSuffix(a, b) && IsProperSuffix(b, c)
    ensures IsSuffix(a, c) && |a| < |c|
  {
    assert c[|c| - |a|..] == c[|c| - |b|..][|b| - |a|..];
  }

  lemma ExtendProperSuffix(a: string, b: string, c: char)
    requires IsProperSuffix(a, b)
    ensures IsProperSuffix(a + [c], b + [c])
  {
    assert (b + [c])[|b| + 1 - (|a| + 1)..] == b[|b| - |a|..] + [c];
  }

  lemma SkeletonKeepsWords(a: seq<Node>, b: seq<Node>)
    requires SameSkeleton(a, b)
    ensures Words(a) == Words(b)
  {
    forall w | w in Words(a) ensures w in Words(b) {
      var i :| 0 <= i < |a| && a[i].isEnd && a[i].word == w;
      assert b[i].isEnd && b[i].word == w;
    }
    forall w | w in Words(b) ensures w in Words(a) {
      var i :| 0 <= i < |b| && b[i].isEnd && b[i].word == w;
      assert a[i].isEnd && a[i].word == w;
    }
  }

  lemma SkeletonTrans(a: seq<Node>, b: seq<Node>, c: seq<Node>)
    requires SameSkeleton(a, b) && SameSkeleton(b, c)
    ensures SameSkeleton(a, c)
  {
  }

  /** The node a child edge leads to has that node as its recorded parent. */
  lemma ChildParent(nodes: seq<Node>, paths: seq<string>, parents: seq<nat>, p: nat, c: char)
    requires Shaped(nodes, paths, parents) && p < |nodes| && c in nodes[p].children
    ensures ChildOk(nodes, paths, p, c) && parents[nodes[p].children[c]] == p
  {
    var j := nodes[p].children[c];
    assert ChildOk(nodes, paths, p, c);
    assert HasParent(nodes, paths, parents, j);
    var q := parents[j];
    var d := paths[j][|paths[j]| - 1];
    assert ChildOk(nodes, paths, q, d);
    assert paths[q] + [d] == paths[p] + [c];
    assert paths[q] == (paths[q] + [d])[..|paths[q]|];
    assert paths[p] == (paths[p] + [c])[..|paths[p]|];
    assert Apart(paths, q, p);
  }

  lemma DepthOneParent(nodes: seq<Node>, paths: seq<string>, parents: seq<nat>, c: char)
    requires Shaped(nodes, paths, parents) && c in nodes[0].children
    ensures ChildOk(nodes, paths, 0, c) && parents[nodes[0].children[c]] == 0
  {
    ChildParent(nodes, paths, parents, 0, c);
  }

  /** Different edges out of one node lead to different nodes. */
  lemma DistinctChildren(nodes: seq<Node>, paths: seq<string>, p: nat, c: char, cs: set<char>)
    requires Linked(nodes, paths) && p < |nodes| && cs <= nodes[p].children.Keys && c in cs
    ensures forall k :: k in cs - {c} ==> nodes[p].children[k] != nodes[p].children[c]
  {
    forall k | k in cs - {c} ensures nodes[p].children[k] != nodes[p].children[c] {
      assert ChildOk(nodes, paths, p, k) && ChildOk(nodes, paths, p, c);
      assert (paths[p] + [k])[|paths[p]|] != (paths[p] + [c])[|paths[p]|];
    }
  }

  /** At the moment `cur` is dequeued none of its children has been queued. */
  lemma ChildrenUnvisited(nodes: seq<Node>, paths: seq<string>, parents: seq<nat>,
                          cur: nat, visited: set<nat>, done: set<nat>)
    requires Shaped(nodes, paths, parents)
    requires cur < |nodes| && cur !in done
    requires forall x :: x in visited ==> 0 < x < |nodes| && parents[x] in done
    ensures forall k :: k in nodes[cur].children ==> nodes[cur].children[k] !in visited
  {
    forall k | k in nodes[cur].children ensures nodes[cur].children[k] !in visited {
      ChildParent(nodes, paths, parents, cur, k);
    }
  }

  /** The state the loop of `ExpandNode` keeps while it works through the
      edge characters `cs` of `cur` that are still to be linked. */
  ghost predicate ExpandInv(old0: seq<Node>, nodes: seq<Node>, paths: seq<string>, parents: seq<nat>,
                            cur: nat, cs: set<char>, queue0: seq<nat>, queue: seq<nat>,
                            visited0: set<nat>, visited: set<nat>, done: set<nat>)
  {
    && Shaped(old0, paths, parents) && BfsFrame(old0, nodes, paths, parents)
    && QueueState(|old0|, parents, queue, visited, done) && LinkState(old0, nodes, visited)
    && cur in done && cur < |old0|
    && ExpandChars(old0, cur, cs, queue0, queue, visited0, visited)
    && LongestAt(nodes, paths, visited)
    && Levels(paths, queue, |paths[cur]|) && Reached(paths, visited, |paths[cur]|)
  }

  /** The edges of `cur` already followed lead to visited nodes, the others
      to unvisited ones, and once one is followed the unvisited set shrank. */
  ghost predicate ExpandChars(old0: seq<Node>, cur: nat, cs: set<char>, queue0: seq<nat>, queue: seq<nat>,
                              visited0: set<nat>, visited: set<nat>)
    requires cur < |old0|
  {
    && cs <= old0[cur].children.Keys && visited0 <= visited
    && (forall k :: k in old0[cur].children.Keys - cs ==> old0[cur].children[k] in visited)
    && (forall k :: k in cs ==> old0[cur].children[k] !in visited)
    && (cs == old0[cur].children.Keys ==> visited == visited0 && queue == queue0)
    && (cs != old0[cur].children.Keys ==> Unvisited(|old0|, visited) < Unvisited(|old0|, visited0))
  }

  lemma CharsStep(old0: seq<Node>, paths: seq<string>, cur: nat, cs: set<char>, c: char,
                  queue0: seq<nat>, queue: seq<nat>, visited0: set<nat>, visited: set<nat>)
    requires Linked(old0, paths) && cur < |old0| && c in cs
    requires ExpandChars(old0, cur, cs, queue0, queue, visited0, visited)
    ensures ChildOk(old0, paths, cur, c)
    ensures var child := old0[cur].children[c];
            ExpandChars(old0, cur, cs - {c}, queue0, queue + [child], visited0, visited + {child})
  {
    var child := old0[cur].children[c];
    assert ChildOk(old0, paths, cur, c);
    UnvisitedShrinks(|old0|, visited0, visited, child);
    DistinctChildren(old0, paths, cur, c, cs);
  }

  /** Linking and queueing the child for `c` keeps the loop state of `ExpandNode`. */
  /** Linking the child of the root along `c` to the root is one step of
      the first loop of `build_fail`. */
  lemma RootStep(old0: seq<Node>, n0: seq<Node>, paths: seq<string>, parents: seq<nat>,
                 keys: set<char>, c: char, queue: seq<nat>, visited: set<nat>)
    requires ExpandInv(old0, n0, paths, parents, 0, keys, [], queue, {}, visited, {0}) && c in keys
    ensures var child := old0[0].children[c];
            && c in n0[0].children && child == n0[0].children[c] && child < |n0|
            && ExpandInv(old0, n0[child := n0[child].(fail := Some(0))], paths, parents, 0, keys - {c}, [],
                         queue + [child], {}, visited + {child}, {0})
  {
    ChildParent(old0, paths, parents, 0, c);
    var child := old0[0].children[c];
    assert ChildOk(n0, paths, 0, c);
    assert EndOk(n0, paths, 0);
    ShapedAfterFail(n0, paths, parents, child, 0);
    var n1 := n0[child := n0[child].(fail := Some(0))];
    assert Longest(n1, paths, child);
    ExpandStep(old0, n0, n1, paths, parents, 0, keys, c, [], queue, {}, visited, {0});
  }

  lemma ExpandStep(old0: seq<Node>, n0: seq<Node>, n1: seq<Node>, paths: seq<string>, parents: seq<nat>,
                   cur: nat, cs: set<char>, c: char, queue0: seq<nat>, queue: seq<nat>,
                   visited0: set<nat>, visited: set<nat>, done: set<nat>)
    requires ExpandInv(old0, n0, paths, parents, cur, cs, queue0, queue, visited0, visited, done)
    requires c in cs && ChildOk(old0, paths, cur, c) && parents[old0[cur].children[c]] == cur
    requires Shaped(n1, paths, parents) && SameSkeleton(n1, n0) && Words(n1) == Words(n0)
    requires forall x: nat | x < |n1| && x != old0[cur].children[c] :: n1[x] == n0[x]
    requires var child := old0[cur].children[c];
             Longest(n1, paths, child) && n1[child].output == n0[child].output + FailWord(n1, child)
    ensures var child := old0[cur].children[c];
            ExpandInv(old0, n1, paths, parents, cur, cs - {c}, queue0, queue + [child], visited0, visited + {child}, done)
  {
    var child := old0[cur].children[c];
    SkeletonTrans(n1, n0, old0);
    LinkPush(old0, n0, n1, visited, child);
    DepthPush(n0, n1, paths, queue, visited, child, |paths[cur]|);
    QueuePush(|old0|, parents, queue, visited, done, child);
    CharsStep(old0, paths, cur, cs, c, queue0, queue, visited0, visited);
  }

  /** Recording a freshly linked child keeps the node half of the state. */
  lemma LinkPush(old0: seq<Node>, n0: seq<Node>, n1: seq<Node>, visited: set<nat>, child: nat)
    requires SameSkeleton(n0, old0) && SameSkeleton(n1, old0)
    requires LinkState(old0, n0, visited)
    requires child < |n0| && child !in visited
    requires forall x: nat | x < |n1| && x != child :: n1[x] == n0[x]
    requires n1[child].fail.Some? && n1[child].fail.value < |n1|
    requires n1[child].output == n0[child].output + FailWord(n1, child)
    ensures LinkState(old0, n1, visited + {child})
  {
    forall x: nat | x in visited && x < |n1|
      ensures n1[x].fail.Some? && n1[x].fail.value < |n1| && n1[x].output == old0[x].output + FailWord(n1, x)
    {
      var t := n0[x].fail.value;
      assert n1[x] == n0[x];
      assert n1[t].isEnd == old0[t].isEnd == n0[t].isEnd && n1[t].word == old0[t].word == n0[t].word;
    }
  }

  /** Queueing a child of a done node keeps the queue half of the state. */
  lemma QueuePush(n: nat, parents: seq<nat>, queue: seq<nat>, visited: set<nat>, done: set<nat>, child: nat)
    requires QueueState(n, parents, queue, visited, done)
    requires 0 < child < n && child !in visited && parents[child] in done
    ensures QueueState(n, parents, queue + [child], visited + {child}, done)
  {
  }

  /** Dequeueing the head moves it to the done nodes. */
  lemma QueuePop(n: nat, parents: seq<nat>, queue: seq<nat>, visited: set<nat>, done: set<nat>)
    requires QueueState(n, parents, queue, visited, done) && queue != []
    ensures QueueState(n, parents, queue[1..], visited, done + {queue[0]})
    ensures queue[0] in visited && queue[0] !in done
  {
    forall x | x in visited ensures x in done + {queue[0]} || x in queue[1..] {
      if x in queue && x != queue[0] {
        var k :| 0 <= k < |queue| && queue[k] == x;
        assert queue[1..][k - 1] == x;
      }
    }
  }

  lemma ExpandedGrows(old0: seq<Node>, done: set<nat>, v0: set<nat>, v1: set<nat>)
    requires v0 <= v1 && forall x :: x in done ==> x < |old0|
    requires forall x :: x in done ==> Expanded(old0, x, v0) || Expanded(old0, x, v1)
    ensures forall x :: x in done ==> Expanded(old0, x, v1)
  {
  }

  /** Every visited node has its longest fail link. */
  ghost predicate LongestAt(nodes: seq<Node>, paths: seq<string>, visited: set<nat>)
    requires |nodes| == |paths|
  {
    forall x: nat | x in visited && x < |nodes| :: Longest(nodes, paths, x)
  }

  /** The queue holds nodes of depth `d` followed by nodes of depth `d + 1`. */
  ghost predicate Levels(paths: seq<string>, queue: seq<nat>, d: nat) {
    && (forall k | 0 <= k < |queue| :: queue[k] < |paths| && d <= |paths[queue[k]]| <= d + 1)
    && (forall k, l | 0 <= k < l < |queue| && queue[k] < |paths| && queue[l] < |paths| ::
          |paths[queue[k]]| <= |paths[queue[l]]|)
  }

  /** Every non-root node of depth at most `d` has been visited. */
  ghost predicate Reached(paths: seq<string>, visited: set<nat>, d: nat) {
    forall x: nat | 0 < x < |paths| && |paths[x]| <= d :: x in visited
  }

  lemma ReachedLongest(nodes: seq<Node>, paths: seq<string>, visited: set<nat>, d: nat)
    requires |nodes| == |paths| && LongestAt(nodes, paths, visited) && Reached(paths, visited, d)
    ensures LongestUpTo(nodes, paths, d)
  {
  }

  /** Queueing a linked child of a node of depth `d` keeps the depth half of the state. */
  lemma DepthPush(n0: seq<Node>, n1: seq<Node>, paths: seq<string>, queue: seq<nat>, visited: set<nat>,
                  child: nat, d: nat)
    requires |n0| == |n1| == |paths| && child < |n1| && |paths[child]| == d + 1
    requires LongestAt(n0, paths, visited) && Levels(paths, queue, d) && Reached(paths, visited, d)
    requires forall x: nat | x < |n1| && x != child :: n1[x] == n0[x]
    requires Longest(n1, paths, child)
    ensures LongestAt(n1, paths, visited + {child})
    ensures Levels(paths, queue + [child], d) && Reached(paths, visited + {child}, d)
  {
    forall x: nat | x in visited + {child} && x < |n1| ensures Longest(n1, paths, x) {
      if x != child {
        assert n1[x] == n0[x] && Longest(n0, paths, x);
      }
    }
  }

  lemma LevelsPop(paths: seq<string>, queue: seq<nat>, d: nat)
    requires Levels(paths, queue, d) && queue != []
    ensures Levels(paths, queue[1..], d)
  {
    forall k, l | 0 <= k < l < |queue| - 1 ensures |paths[queue[1..][k]]| <= |paths[queue[1..][l]]| {
      assert queue[1..][k] == queue[k + 1] && queue[1..][l] == queue[l + 1];
    }
  }

  /** Before the first round only the root is done, and no non-root node has depth 0. */
  lemma ReachedNone(nodes: seq<Node>, paths: seq<string>, parents: seq<nat>, visited: set<nat>)
    requires Shaped(nodes, paths, parents)
    ensures Reached(paths, visited, 0)
  {
    forall x: nat | 0 < x < |paths| ensures |paths[x]| > 0 {
      assert HasParent(nodes, paths, parents, x);
    }
  }

  /** When the queue moves on from depth `d` to depth `d + 1`, every node
      of depth `d + 1` has been visited: its parent of depth `d` is done and
      has been expanded. */
  lemma NextLevel(nodes: seq<Node>, paths: seq<string>, parents: seq<nat>,
                  queue: seq<nat>, visited: set<nat>, done: set<nat>, d: nat)
    requires Shaped(nodes, paths, parents) && QueueState(|nodes|, parents, queue, visited, done)
    requires forall x :: x in done ==> Expanded(nodes, x, visited)
    requires Levels(paths, queue, d) && Reached(paths, visited, d) && queue != []
    ensures queue[0] < |paths| && Levels(paths, queue, |paths[queue[0]]|) && Reached(paths, visited, |paths[queue[0]]|)
  {
    var e := |paths[queue[0]]|;
    if e == d + 1 {
      forall x: nat | 0 < x < |paths| && |paths[x]| == d + 1 ensures x in visited {
        assert HasParent(nodes, paths, parents, x);
        var p := parents[x];
        var c := paths[x][|paths[x]| - 1];
        ChildParent(nodes, paths, parents, p, c);
        assert nodes[p].children[c] == x;
        forall k | 0 <= k < |queue| ensures queue[k] != p {
          assert |paths[queue[k]]| >= d + 1;
        }
        assert p in done;
        assert Expanded(nodes, p, visited);
      }
    }
  }

  /** The state the breadth-first loop of `build_fail` keeps: the node
      and queue halves, every done node expanded, visited nodes linked
      to their longest targets, and the queue one depth level wide with
      every shallower node already visited. */
  ghost predicate BfsInv(old0: seq<Node>, nodes: seq<Node>, paths: seq<string>, parents: seq<nat>,
                         queue: seq<nat>, visited: set<nat>, done: set<nat>)
  {
    && Shaped(old0, paths, parents) && BfsFrame(old0, nodes, paths, parents)
    && QueueState(|old0|, parents, queue, visited, done) && LinkState(old0, nodes, visited)
    && (forall x :: x in done ==> Expanded(old0, x, visited))
    && LongestAt(nodes, paths, visited)
    && (queue != [] ==> queue[0] < |paths| && Levels(paths, queue, |paths[queue[0]]|)
                        && Reached(paths, visited, |paths[queue[0]]|))
  }

  lemma BfsStart(old0: seq<Node>, nodes: seq<Node>, paths: seq<string>, parents: seq<nat>,
                 queue: seq<nat>, visited: set<nat>)
    requires Shaped(old0, paths, parents) && BfsFrame(old0, nodes, paths, parents)
    requires QueueState(|nodes|, parents, queue, visited, {0}) && LinkState(old0, nodes, visited)
    requires Expanded(old0, 0, visited) && LongestAt(nodes, paths, visited) && Levels(paths, queue, 0)
    ensures BfsInv(old0, nodes, paths, parents, queue, visited, {0})
  {
    ReachedNone(old0, paths, parents, visited);
    if queue != [] {
      NextLevel(old0, paths, parents, queue, visited, {0}, 0);
    }
  }

  /** Once the queue is empty every non-root node is linked to its longest target. */
  lemma BfsEnd(old0: seq<Node>, nodes: seq<Node>, paths: seq<string>, parents: seq<nat>,
               visited: set<nat>, done: set<nat>)
    requires BfsInv(old0, nodes, paths, parents, [], visited, done)
    ensures forall k: nat | 0 < k < |nodes| ::
              nodes[k].fail.Some? && nodes[k].fail.value < |nodes|
              && nodes[k].output == old0[k].output + FailWord(nodes, k)
    ensures FailsLongest(nodes, paths)
  {
    AllVisited(old0, paths, parents, visited, done);
  }

  /** When the queue is empty every node has been visited. */
  lemma AllVisited(old0: seq<Node>, paths: seq<string>, parents: seq<nat>, visited: set<nat>, done: set<nat>)
    requires Shaped(old0, paths, parents)
    requires QueueState(|old0|, parents, [], visited, done)
    requires forall x :: x in done ==> Expanded(old0, x, visited)
    ensures forall k: nat | 0 < k < |old0| :: k in visited
  {
    forall k: nat | 0 < k < |old0| ensures k in visited {
      VisitedByDepth(old0, paths, parents, visited, done, k);
    }
  }

  lemma {:induction false} VisitedByDepth(nodes: seq<Node>, paths: seq<string>, parents: seq<nat>,
                                          visited: set<nat>, done: set<nat>, k: nat)
    requires Shaped(nodes, paths, parents) && 0 < k < |nodes|
    requires 0 in done && forall x :: x in visited ==> x in done
    requires forall x :: x in done ==> x < |nodes| && Expanded(nodes, x, visited)
    ensures k in visited
    decreases |paths[k]|
  {
    assert HasParent(nodes, paths, parents, k);
    var p := parents[k];
    var c := paths[k][|paths[k]| - 1];
    assert ChildOk(nodes, paths, p, c);
    if p != 0 {
      assert |paths[p]| < |paths[k]|;
      VisitedByDepth(nodes, paths, parents, visited, done, p);
    }
    assert Expanded(nodes, p, visited);
  }

  // -----------------------------------------------------------------------
  // Longest fail links: the chase of `build_fail`

  /** No node spelling a suffix of `s` longer than `len` characters has an edge for `c`. */
  ghost predicate NoEdgeAbove(nodes: seq<Node>, paths: seq<string>, s: string, len: int, c: char)
    requires |nodes| == |paths|
  {
    forall j: nat | j < |nodes| && IsSuffix(paths[j], s) && |paths[j]| > len :: c !in nodes[j].children
  }

  lemma SuffixChain(a: string, b: string, c: string)
    requires IsSuffix(a, b) && IsSuffix(b, c)
    ensures IsSuffix(a, c)
  {
    assert c[|c| - |a|..] == c[|c| - |b|..][|b| - |a|..];
  }

  /** Of two suffixes of one string, the shorter is a suffix of the longer. */
  lemma SuffixOfSuffix(a: string, b: string, s: string)
    requires IsSuffix(a, s) && IsSuffix(b, s) && |a| <= |b|
    ensures IsSuffix(a, b)
  {
    assert b[|b| - |a|..] == s[|s| - |b|..][|b| - |a|..];
  }

  /** The proper suffixes of a non-empty string are the suffixes of its tail. */
  lemma ProperTail(a: string, b: string)
    requires b != []
    ensures IsProperSuffix(a, b) <==> IsSuffix(a, b[1..])
  {
    if |a| < |b| {
      assert b[1..][|b| - 1 - |a|..] == b[|b| - |a|..];
    }
  }

  /** A suffix of `s + [c]` that ends in `d` is a suffix of `s` extended by `c`. */
  lemma SuffixUnsnoc(a: string, d: char, s: string, c: char)
    requires IsSuffix(a + [d], s + [c])
    ensures d == c && IsSuffix(a, s)
  {
    var t := s + [c];
    assert t[|t| - 1] == d;
    assert s[|s| - |a|..] == t[|t| - |a| - 1..][..|a|];
  }

  /** Where the chase of `cur`'s child along `c` starts: the longest fail
      target of `cur`, a suffix of the tail of its string, and no longer
      suffix of that tail is spelled by a node at all. */
  lemma ChaseStart(nodes: seq<Node>, paths: seq<string>, parents: seq<nat>, cur: nat, c: char)
    requires Shaped(nodes, paths, parents) && 0 < cur < |nodes| && Longest(nodes, paths, cur)
    ensures var f := nodes[cur].fail.value;
            IsProperSuffix(paths[f], paths[cur]) && IsSuffix(paths[f], paths[cur][1..])
            && NoEdgeAbove(nodes, paths, paths[cur][1..], |paths[f]|, c)
  {
    var f := nodes[cur].fail.value;
    assert FailOk(nodes, paths, cur);
    ProperTail(paths[f], paths[cur]);
    forall j: nat | j < |nodes| && IsSuffix(paths[j], paths[cur][1..]) ensures |paths[j]| <= |paths[f]| {
      ProperTail(paths[j], paths[cur]);
    }
  }

  /** A node `x` spelling a suffix of `s`, without a `c` edge and beyond
      which no node has one, hands on to its longest fail target, and no
      node skipped on the way has a `c` edge. */
  lemma FailStep(nodes: seq<Node>, paths: seq<string>, parents: seq<nat>, s: string, x: nat, c: char)
    requires Shaped(nodes, paths, parents) && 0 < x < |nodes| && Longest(nodes, paths, x)
    requires IsSuffix(paths[x], s) && c !in nodes[x].children && NoEdgeAbove(nodes, paths, s, |paths[x]|, c)
    ensures var f := nodes[x].fail.value;
            f < |nodes| && IsProperSuffix(paths[f], paths[x])
            && IsSuffix(paths[f], s) && NoEdgeAbove(nodes, paths, s, |paths[f]|, c)
  {
    var f := nodes[x].fail.value;
    assert FailOk(nodes, paths, x);
    SuffixChain(paths[f], paths[x], s);
    forall j: nat | j < |nodes| && IsSuffix(paths[j], s) && |paths[j]| > |paths[f]|
      ensures c !in nodes[j].children
    {
      if |paths[j]| <= |paths[x]| {
        SuffixOfSuffix(paths[j], paths[x], s);
        assert !IsProperSuffix(paths[j], paths[x]);
        assert paths[x][|paths[x]| - |paths[j]|..] == paths[x];
        assert Apart(paths, j, x);
      }
    }
  }

  /** One step of the chase of `build_fail`: a node `x` on it without a
      `c` edge either is the root (the chase ends with no node left) or
      hands on to its own longest fail target. */
  lemma ChaseStep(nodes: seq<Node>, paths: seq<string>, parents: seq<nat>, cur: nat, c: char, x: nat)
    requires Shaped(nodes, paths, parents) && 0 < cur < |nodes| && LongestUpTo(nodes, paths, |paths[cur]|)
    requires x < |nodes| && IsProperSuffix(paths[x], paths[cur]) && IsSuffix(paths[x], paths[cur][1..])
    requires c !in nodes[x].children && NoEdgeAbove(nodes, paths, paths[cur][1..], |paths[x]|, c)
    ensures var f := nodes[x].fail;
            && (f.Some? ==> f.value < |nodes| && |paths[f.value]| < |paths[x]|
                            && IsProperSuffix(paths[f.value], paths[cur])
                            && IsSuffix(paths[f.value], paths[cur][1..])
                            && NoEdgeAbove(nodes, paths, paths[cur][1..], |paths[f.value]|, c))
            && (f.None? ==> NoEdgeAbove(nodes, paths, paths[cur][1..], -1, c))
  {
    assert nodes[x].fail.Some? ==> FailOk(nodes, paths, x);
    if x == 0 {
      RootStop(nodes, paths, parents, paths[cur][1..], c);
    } else {
      assert Longest(nodes, paths, x);
      FailStep(nodes, paths, parents, paths[cur][1..], x, c);
      SuffixTrans(paths[nodes[x].fail.value], paths[x], paths[cur]);
    }
  }

  /** Where the chase stops: at a node `x` with an edge for `c` (or at the
      root, when no node spelling a suffix of `s` has one), the node the edge
      leads to (the root) spells the longest suffix of `s + [c]` that any
      node spells. */
  lemma ChaseExit(nodes: seq<Node>, paths: seq<string>, parents: seq<nat>, s: string, x: nat, c: char, len: int)
    requires Shaped(nodes, paths, parents) && x < |nodes| && IsSuffix(paths[x], s)
    requires NoEdgeAbove(nodes, paths, s, len, c)
    requires if c in nodes[x].children then len == |paths[x]| else len == -1
    ensures c in nodes[x].children ==> ChildOk(nodes, paths, x, c)
    ensures var t := if c in nodes[x].children then nodes[x].children[c] else 0;
            && t < |nodes| && IsSuffix(paths[t], s + [c])
            && forall j: nat | j < |nodes| && IsSuffix(paths[j], s + [c]) :: |paths[j]| <= |paths[t]|
  {
    if c in nodes[x].children {
      assert ChildOk(nodes, paths, x, c);
      ChildSuffix(nodes, paths, parents, s, x, c);
    }
    forall j: nat | j < |nodes| && IsSuffix(paths[j], s + [c])
      ensures |paths[j]| <= (if c in nodes[x].children then |paths[x]| + 1 else 0)
    {
      if paths[j] != [] {
        assert j != 0;
        assert HasParent(nodes, paths, parents, j);
        var p := parents[j];
        var d := paths[j][|paths[j]| - 1];
        assert ChildOk(nodes, paths, p, d);
        SuffixUnsnoc(paths[p], d, s, c);
      }
    }
  }

  /** The target the chase reaches is the longest fail target of the child
      of `cur` along `c`. */
  lemma LinkLongest(nodes: seq<Node>, paths: seq<string>, parents: seq<nat>, cur: nat, c: char, x: nat, len: int)
    requires Shaped(nodes, paths, parents) && 0 < cur < |nodes| && paths[cur] != [] && c in nodes[cur].children
    requires x < |nodes| && IsSuffix(paths[x], paths[cur][1..]) && NoEdgeAbove(nodes, paths, paths[cur][1..], len, c)
    requires if c in nodes[x].children then len == |paths[x]| else len == -1
    ensures ChildOk(nodes, paths, cur, c)
    ensures var t := if c in nodes[x].children then nodes[x].children[c] else 0;
            t < |nodes| && LongestTarget(paths, nodes[cur].children[c], t)
  {
    assert ChildOk(nodes, paths, cur, c);
    var child := nodes[cur].children[c];
    var s := paths[cur][1..];
    assert paths[child][1..] == s + [c];
    ChaseExit(nodes, paths, parents, s, x, c, len);
    forall j: nat | j < |paths| && IsProperSuffix(paths[j], paths[child])
      ensures |paths[j]| <= |paths[if c in nodes[x].children then nodes[x].children[c] else 0]|
    {
      ProperTail(paths[j], paths[child]);
    }
  }

  // -----------------------------------------------------------------------
  // The trie holds the prefixes of its words and nothing else

  /** Every non-root node other than `node` that ends no word has a child. */
  ghost predicate PrunedBut(nodes: seq<Node>, node: nat) {
    forall k: nat | 0 < k < |nodes| && k != node :: nodes[k].isEnd || nodes[k].children != map[]
  }

  /** No string a node spells is longer than this. */
  ghost function MaxLength(paths: seq<string>): (m: nat)
    ensures forall i | 0 <= i < |paths| :: |paths[i]| <= m
  {
    if paths == [] then 0
    else
      var m := MaxLength(paths[1..]);
      assert forall i | 1 <= i < |paths| :: paths[i] == paths[1..][i - 1];
      if |paths[0]| > m then |paths[0]| else m
  }

  /** Going down from a non-root node reaches an end node. */
  lemma {:induction false} Descend(nodes: seq<Node>, paths: seq<string>, parents: seq<nat>, k: nat, bound: nat)
    requires Shaped(nodes, paths, parents) && Pruned(nodes) && 0 < k < |nodes|
    requires forall i | 0 <= i < |paths| :: |paths[i]| <= bound
    ensures exists e: nat :: e < |nodes| && nodes[e].isEnd && StartsWith(paths[e], paths[k])
    decreases bound - |paths[k]|
  {
    if nodes[k].isEnd {
      assert StartsWith(paths[k], paths[k]);
    } else {
      var c :| c in nodes[k].children;
      assert ChildOk(nodes, paths, k, c);
      var child := nodes[k].children[c];
      Descend(nodes, paths, parents, child, bound);
      var e: nat :| e < |nodes| && nodes[e].isEnd && StartsWith(paths[e], paths[child]);
      assert paths[e][..|paths[k]|] == paths[child][..|paths[k]|];
    }
  }

  /** The strings the nodes spell. */
  ghost function PathSet(paths: seq<string>): set<string> {
    set i | 0 <= i < |paths| :: paths[i]
  }

  /** The nodes spell exactly the prefixes of the held words. */
  lemma PathsArePrefixes(nodes: seq<Node>, paths: seq<string>, parents: seq<nat>)
    requires Shaped(nodes, paths, parents) && Pruned(nodes)
    ensures PathSet(paths) == Prefixes(Words(nodes))
  {
    forall p | p in PathSet(paths) ensures p in Prefixes(Words(nodes)) {
      var k: nat :| k < |paths| && paths[k] == p;
      if k != 0 {
        Descend(nodes, paths, parents, k, MaxLength(paths));
        var e: nat :| e < |nodes| && nodes[e].isEnd && StartsWith(paths[e], paths[k]);
        assert EndOk(nodes, paths, e);
        assert nodes[e].word in Words(nodes) && p == nodes[e].word[..|p|];
      }
    }
    forall p | p in Prefixes(Words(nodes)) ensures p in PathSet(paths) {
      if p == [] {
        assert paths[0] == p;
      } else {
        var w, k :| w in Words(nodes) && 0 <= k <= |w| && p == w[..k];
        var e :| 0 <= e < |nodes| && nodes[e].isEnd && nodes[e].word == w;
        assert EndOk(nodes, paths, e);
        var q := PrefixNode(nodes, paths, parents, e, k);
        assert paths[q] == p;
      }
    }
  }

  // -----------------------------------------------------------------------
  // The scan of a canonical table is the reference scan

  /** A node spelling a suffix of `u` that no other node's suffix of `u`
      outgrows spells the longest suffix of `u` among the nodes' strings. */
  lemma LongestNode(paths: seq<string>, u: string, t: nat)
    requires 0 < |paths| && paths[0] == [] && t < |paths| && IsSuffix(paths[t], u)
    requires forall j: nat | j < |paths| && IsSuffix(paths[j], u) :: |paths[j]| <= |paths[t]|
    ensures paths[t] == LongestIn(PathSet(paths), u)
  {
    var r := LongestIn(PathSet(paths), u);
    LongestInSpec(PathSet(paths), u);
    assert paths[t] in PathSet(paths);
    assert r in PathSet(paths) ==> exists j: nat :: j < |paths| && paths[j] == r;
    SuffixOfSuffix(paths[t], r, u);
    assert r[|r| - |paths[t]|..] == r;
  }

  /** The chase from the root ends there: no node spelling a suffix of `s`
      has a `c` edge. */
  lemma RootStop(nodes: seq<Node>, paths: seq<string>, parents: seq<nat>, s: string, c: char)
    requires Shaped(nodes, paths, parents) && c !in nodes[0].children && NoEdgeAbove(nodes, paths, s, 0, c)
    ensures NoEdgeAbove(nodes, paths, s, -1, c)
  {
    forall j: nat | j < |nodes| && IsSuffix(paths[j], s) && |paths[j]| > -1 ensures c !in nodes[j].children {
      if paths[j] == [] {
        assert Apart(paths, j, 0);
      }
    }
  }

  /** Following fail links from a node spelling a suffix of `s`, beyond
      which no node has a `c` edge, stops at the longest node spelling a
      suffix of `s` with a `c` edge, or at the root when there is none. */
  lemma {:induction false} FollowChase(nodes: seq<Node>, paths: seq<string>, parents: seq<nat>, s: string, x: nat, c: char)
    requires Shaped(nodes, paths, parents) && Built(nodes) && FailsLongest(nodes, paths) && x < |nodes|
    requires IsSuffix(paths[x], s) && NoEdgeAbove(nodes, paths, s, |paths[x]|, c)
    ensures var r := Follow(nodes, paths, x, c);
            IsSuffix(paths[r], s) && NoEdgeAbove(nodes, paths, s, if c in nodes[r].children then |paths[r]| else -1, c)
    decreases |paths[x]|
  {
    if x == 0 || c in nodes[x].children {
      if c !in nodes[x].children {
        RootStop(nodes, paths, parents, s, c);
      }
    } else {
      assert Longest(nodes, paths, x);
      FailStep(nodes, paths, parents, s, x, c);
      FollowChase(nodes, paths, parents, s, nodes[x].fail.value, c);
    }
  }

  /** One character of the scan moves to the node spelling the longest
      suffix, among the nodes' strings, of what has been read. */
  lemma FollowExact(nodes: seq<Node>, paths: seq<string>, parents: seq<nat>, cur: nat, c: char)
    requires Shaped(nodes, paths, parents) && Built(nodes) && FailsLongest(nodes, paths) && cur < |nodes|
    ensures var f := Follow(nodes, paths, cur, c);
            c in nodes[f].children ==> ChildOk(nodes, paths, f, c)
    ensures var f := Follow(nodes, paths, cur, c);
            var n := if c in nodes[f].children then nodes[f].children[c] else f;
            n < |nodes| && paths[n] == LongestIn(PathSet(paths), paths[cur] + [c])
  {
    var s := paths[cur];
    assert NoEdgeAbove(nodes, paths, s, |s|, c);
    FollowChase(nodes, paths, parents, s, cur, c);
    var f := Follow(nodes, paths, cur, c);
    ChaseExit(nodes, paths, parents, s, f, c, if c in nodes[f].children then |paths[f]| else -1);
    var n := if c in nodes[f].children then nodes[f].children[c] else 0;
    LongestNode(paths, s + [c], n);
  }

  /** Whether a node spells a held word is whether it is an end node. */
  lemma EndWord(nodes: seq<Node>, paths: seq<string>, parents: seq<nat>, x: nat)
    requires Shaped(nodes, paths, parents) && x < |nodes|
    ensures paths[x] in Words(nodes) <==> nodes[x].isEnd
    ensures nodes[x].isEnd ==> nodes[x].word == paths[x]
  {
    assert EndOk(nodes, paths, x);
    if paths[x] in Words(nodes) {
      var e :| 0 <= e < |nodes| && nodes[e].isEnd && nodes[e].word == paths[x];
      assert EndOk(nodes, paths, e) && Apart(paths, e, x);
    }
  }

  /** What a node of a canonical table records is the reference `Hit` of its string. */
  lemma ReportsExact(nodes: seq<Node>, paths: seq<string>, parents: seq<nat>, n: nat)
    requires Shaped(nodes, paths, parents) && FailsLongest(nodes, paths) && FreshOutputs(nodes) && n < |nodes|
    ensures Reports(nodes[n]) == Hit(Words(nodes), PathSet(paths), paths[n])
  {
    EndWord(nodes, paths, parents, n);
    assert EndOk(nodes, paths, n);
    if n == 0 {
      assert OutputOk(nodes, paths, 0);
      assert forall w | w in nodes[0].output :: false;
    } else {
      assert Longest(nodes, paths, n) && FailOk(nodes, paths, n);
      var f := nodes[n].fail.value;
      var tail := paths[n][1..];
      ProperTail(paths[f], paths[n]);
      forall j: nat | j < |paths| && IsSuffix(paths[j], tail) ensures |paths[j]| <= |paths[f]| {
        ProperTail(paths[j], paths[n]);
      }
      LongestNode(paths, tail, f);
      EndWord(nodes, paths, parents, f);
      if nodes[f].isEnd {
        assert (set w | w in [nodes[f].word]) == {nodes[f].word};
      } else {
        assert (set w | w in nodes[n].output) == {};
      }
    }
  }

  /** A scan of a canonical table records what the reference scan records
      from the state the current node spells. */
  lemma {:induction false} ScanExact(nodes: seq<Node>, paths: seq<string>, parents: seq<nat>, text: string, cur: nat)
    requires Shaped(nodes, paths, parents) && Built(nodes) && FailsLongest(nodes, paths) && FreshOutputs(nodes)
    requires cur < |nodes|
    ensures ScanFrom(nodes, paths, text, cur) == ScanSpec(Words(nodes), PathSet(paths), paths[cur], text)
    decreases |text|
  {
    if text != [] {
      var c := text[0];
      var f := Follow(nodes, paths, cur, c);
      FollowExact(nodes, paths, parents, cur, c);
      if c in nodes[f].children {
        var n := nodes[f].children[c];
        ReportsExact(nodes, paths, parents, n);
        ScanExact(nodes, paths, parents, text[1..], n);
      } else {
        EndWord(nodes, paths, parents, 0);
        assert EndOk(nodes, paths, 0);
        ScanExact(nodes, paths, parents, text[1..], f);
      }
    }
  }

  /** The table after hanging a fresh node under `node` for `c`. */
  function WithChild(nodes: seq<Node>, node: nat, c: char): seq<Node>
    requires node < |nodes|
  {
    nodes[node := nodes[node].(children := nodes[node].children[c := |nodes|])] + [EmptyNode]
  }

  lemma AddChildWords(nodes: seq<Node>, node: nat, c: char)
    requires node < |nodes|
    ensures Words(WithChild(nodes, node, c)) == Words(nodes)
    ensures NoOutputs(nodes) ==> NoOutputs(WithChild(nodes, node, c))
  {
    var nodes' := WithChild(nodes, node, c);
    forall w | w in Words(nodes') ensures w in Words(nodes) {
      var i :| 0 <= i < |nodes'| && nodes'[i].isEnd && nodes'[i].word == w;
      assert i < |nodes| && nodes[i].isEnd && nodes[i].word == w;
    }
    forall w | w in Words(nodes) ensures w in Words(nodes') {
      var i :| 0 <= i < |nodes| && nodes[i].isEnd && nodes[i].word == w;
      assert nodes'[i].isEnd && nodes'[i].word == w;
    }
  }

  lemma AddChildLinked(nodes: seq<Node>, paths: seq<string>, node: nat, c: char)
    requires Linked(nodes, paths) && node < |nodes| && c !in nodes[node].children
    ensures Linked(WithChild(nodes, node, c), paths + [paths[node] + [c]])
  {
    var nodes' := WithChild(nodes, node, c);
    var paths' := paths + [paths[node] + [c]];
    forall i: nat, d | i < |nodes'| && d in nodes'[i].children ensures ChildOk(nodes', paths', i, d) {
      if i != node || d != c {
        assert ChildOk(nodes, paths, i, d);
      }
    }
    forall i: nat | i < |nodes'| && nodes'[i].fail.Some? ensures FailOk(nodes', paths', i) {
      assert FailOk(nodes, paths, i);
    }
  }

  lemma AddChildParents(nodes: seq<Node>, paths: seq<string>, parents: seq<nat>, node: nat, c: char)
    requires Shaped(nodes, paths, parents) && node < |nodes| && c !in nodes[node].children
    ensures var nodes' := WithChild(nodes, node, c);
            forall i: nat | 0 < i < |nodes'| :: HasParent(nodes', paths + [paths[node] + [c]], parents + [node], i)
  {
    var nodes' := WithChild(nodes, node, c);
    var paths' := paths + [paths[node] + [c]];
    var parents' := parents + [node];
    forall i: nat | 0 < i < |nodes'| ensures HasParent(nodes', paths', parents', i) {
      if i < |nodes| {
        assert HasParent(nodes, paths, parents, i);
      } else {
        assert paths'[i] == paths[node] + [c];
      }
    }
  }

  lemma AddChildInjective(nodes: seq<Node>, paths: seq<string>, parents: seq<nat>, node: nat, c: char)
    requires Shaped(nodes, paths, parents) && node < |nodes| && c !in nodes[node].children
    ensures var paths' := paths + [paths[node] + [c]];
            forall i: nat, j: nat | i < |paths'| && j < |paths'| :: Apart(paths', i, j)
  {
    var paths' := paths + [paths[node] + [c]];
    var e := paths[node] + [c];
    assert e[..|paths[node]|] == paths[node] && e[|e| - 1] == c;
    forall o: nat | o < |nodes| ensures paths[o] != e {
      if o != 0 {
        assert HasParent(nodes, paths, parents, o);
        var p := parents[o];
        var d := paths[o][|paths[o]| - 1];
        assert ChildOk(nodes, paths, p, d);
        assert paths[o][..|paths[o]| - 1] == paths[p];
        assert p == node ==> d != c;
        assert Apart(paths, p, node);
      }
    }
    forall i: nat, j: nat | i < |paths'| && j < |paths'| ensures Apart(paths', i, j) {
      if i < |nodes| && j < |nodes| {
        assert Apart(paths, i, j);
      }
    }
  }

  /** Adding a fresh child under `node` for `c` keeps the table a tree. */
  lemma AddChildKeepsShape(nodes: seq<Node>, paths: seq<string>, parents: seq<nat>, node: nat, c: char)
    requires Shaped(nodes, paths, parents) && node < |nodes| && c !in nodes[node].children
    ensures Shaped(WithChild(nodes, node, c), paths + [paths[node] + [c]], parents + [node])
    ensures Words(WithChild(nodes, node, c)) == Words(nodes)
    ensures NoOutputs(nodes) ==> NoOutputs(WithChild(nodes, node, c))
  {
    var nodes' := WithChild(nodes, node, c);
    var paths' := paths + [paths[node] + [c]];
    AddChildWords(nodes, node, c);
    AddChildLinked(nodes, paths, node, c);
    AddChildParents(nodes, paths, parents, node, c);
    AddChildInjective(nodes, paths, parents, node, c);
    forall i: nat | i < |nodes'| ensures EndOk(nodes', paths', i) {
      if i < |nodes| {
        assert EndOk(nodes, paths, i);
        assert paths'[i] == paths[i];
      }
    }
    forall i: nat | i < |nodes'| ensures OutputOk(nodes', paths', i) {
      if i < |nodes| {
        assert OutputOk(nodes, paths, i);
        assert nodes'[i].output == nodes[i].output;
        assert paths'[i] == paths[i];
      }
    }
  }

  /** Marking the node that spells `paths[node]` as an end adds that word. */
  lemma MarkEndKeepsShape(nodes: seq<Node>, paths: seq<string>, parents: seq<nat>, node: nat)
    requires Shaped(nodes, paths, parents) && 0 < node < |nodes| && !nodes[node].isEnd
    ensures var nodes' := nodes[node := nodes[node].(isEnd := true, word := paths[node])];
            Shaped(nodes', paths, parents)
            && Words(nodes') == Words(nodes) + {paths[node]}
            && paths[node] !in Words(nodes)
            && (NoOutputs(nodes) ==> NoOutputs(nodes'))
  {
    var nodes' := nodes[node := nodes[node].(isEnd := true, word := paths[node])];
    assert HasParent(nodes, paths, parents, node);
    forall w | w in Words(nodes') ensures w in Words(nodes) + {paths[node]} {
      var i :| 0 <= i < |nodes'| && nodes'[i].isEnd && nodes'[i].word == w;
      if i != node {
        assert nodes[i].isEnd && nodes[i].word == w;
      }
    }
    forall w | w in Words(nodes) + {paths[node]} ensures w in Words(nodes') {
      if w == paths[node] {
        assert nodes'[node].isEnd && nodes'[node].word == w;
      } else {
        var i :| 0 <= i < |nodes| && nodes[i].isEnd && nodes[i].word == w;
        assert nodes'[i].isEnd && nodes'[i].word == w;
      }
    }
    forall i: nat | i < |nodes| && nodes[i].isEnd ensures nodes[i].word != paths[node] {
      assert EndOk(nodes, paths, i);
      assert Apart(paths, i, node);
    }
    forall i: nat, d | i < |nodes'| && d in nodes'[i].children ensures ChildOk(nodes', paths, i, d) {
      assert ChildOk(nodes, paths, i, d);
    }
    forall i: nat | i < |nodes'| && nodes'[i].fail.Some? ensures FailOk(nodes', paths, i) {
      assert FailOk(nodes, paths, i);
    }
    forall i: nat | 0 < i < |nodes'| ensures HasParent(nodes', paths, parents, i) {
      assert HasParent(nodes, paths, parents, i);
    }
    forall i: nat | i < |nodes'| ensures EndOk(nodes', paths, i) {
      assert EndOk(nodes, paths, i);
    }
    forall i: nat | i < |nodes'| ensures OutputOk(nodes', paths, i) {
      assert OutputOk(nodes, paths, i);
    }
  }

  /** Replacing one node by one with the same edges, end mark and word, a fail
      link to a proper suffix (if any) and an output list of held proper
      suffixes keeps the shape and the held words. */
  lemma ShapedAfterUpdate(nodes: seq<Node>, paths: seq<string>, parents: seq<nat>, x: nat, n: Node)
    requires Shaped(nodes, paths, parents) && x < |nodes|
    requires n.children == nodes[x].children && n.isEnd == nodes[x].isEnd && n.word == nodes[x].word
    requires n.fail.Some? ==> n.fail.value < |nodes| && IsProperSuffix(paths[n.fail.value], paths[x])
    requires forall w | w in n.output :: IsProperSuffix(w, paths[x]) && w in Words(nodes)
    ensures Shaped(nodes[x := n], paths, parents)
    ensures SameSkeleton(nodes[x := n], nodes) && Words(nodes[x := n]) == Words(nodes)
  {
    var nodes' := nodes[x := n];
    SkeletonKeepsWords(nodes', nodes);
    forall i: nat, d | i < |nodes'| && d in nodes'[i].children ensures ChildOk(nodes', paths, i, d) {
      assert ChildOk(nodes, paths, i, d);
    }
    forall i: nat | i < |nodes'| && nodes'[i].fail.Some? ensures FailOk(nodes', paths, i) {
      if i != x {
        assert FailOk(nodes, paths, i);
      }
    }
    forall i: nat | 0 < i < |nodes'| ensures HasParent(nodes', paths, parents, i) {
      assert HasParent(nodes, paths, parents, i);
    }
    forall i: nat | i < |nodes'| ensures EndOk(nodes', paths, i) {
      assert EndOk(nodes, paths, i);
    }
    forall i: nat | i < |nodes'| ensures OutputOk(nodes', paths, i) {
      if i != x {
        assert OutputOk(nodes, paths, i);
      }
    }
  }

  /** Setting a fail link to a node that spells a proper suffix keeps the shape. */
  lemma ShapedAfterFail(nodes: seq<Node>, paths: seq<string>, parents: seq<nat>, x: nat, t: nat)
    requires Shaped(nodes, paths, parents) && 0 < x < |nodes| && t < |nodes|
    requires IsProperSuffix(paths[t], paths[x])
    ensures var nodes' := nodes[x := nodes[x].(fail := Some(t))];
            Shaped(nodes', paths, parents) && SameSkeleton(nodes', nodes) && Words(nodes') == Words(nodes)
  {
    assert OutputOk(nodes, paths, x);
    ShapedAfterUpdate(nodes, paths, parents, x, nodes[x].(fail := Some(t)));
  }

  /** Linking `x` to a node spelling a proper suffix, and appending that
      node's word when it ends one, keeps the shape. */
  lemma ShapedAfterLink(nodes: seq<Node>, paths: seq<string>, parents: seq<nat>, x: nat, t: nat)
    requires Shaped(nodes, paths, parents) && 0 < x < |nodes| && t < |nodes|
    requires IsProperSuffix(paths[t], paths[x])
    ensures var n := nodes[x].(fail := Some(t), output := if nodes[t].isEnd then nodes[x].output + [nodes[t].word] else nodes[x].output);
            Shaped(nodes[x := n], paths, parents) && SameSkeleton(nodes[x := n], nodes) && Words(nodes[x := n]) == Words(nodes)
  {
    assert OutputOk(nodes, paths, x) && EndOk(nodes, paths, t);
    assert nodes[t].isEnd ==> nodes[t].word in Words(nodes);
    var n := nodes[x].(fail := Some(t), output := if nodes[t].isEnd then nodes[x].output + [nodes[t].word] else nodes[x].output);
    ShapedAfterUpdate(nodes, paths, parents, x, n);
  }

  // -----------------------------------------------------------------------
  // What a scan reports

  lemma SuffixContained(w: string, s: string)
    requires IsSuffix(w, s)
    ensures Contains(s, w)
  {
    assert OccursAt(s, w, |s| - |w|);
  }

  lemma ContainedInLonger(s: string, t: string, w: string)
    requires Contains(s, w)
    ensures Contains(s + t, w)
  {
    var i :| 0 <= i <= |s| - |w| && OccursAt(s, w, i);
    assert (s + t)[i..i + |w|] == s[i..i + |w|];
    assert OccursAt(s + t, w, i);
  }

  /** The words recorded at a node spelling a suffix of `read` are held and occur in `read`. */
  lemma ReportsSound(nodes: seq<Node>, paths: seq<string>, parents: seq<nat>, n: nat, read: string)
    requires Shaped(nodes, paths, parents) && n < |nodes| && IsSuffix(paths[n], read)
    ensures forall w :: w in Reports(nodes[n]) ==> w in Words(nodes) && Contains(read, w)
  {
    assert EndOk(nodes, paths, n) && OutputOk(nodes, paths, n);
    forall w | w in Reports(nodes[n]) ensures w in Words(nodes) && Contains(read, w) {
      if nodes[n].isEnd && w == nodes[n].word {
        SuffixContained(w, read);
      } else {
        assert w in nodes[n].output && IsProperSuffix(w, paths[n]);
        assert read[|read| - |w|..] == read[|read| - |paths[n]|..][|paths[n]| - |w|..];
        SuffixContained(w, read);
      }
    }
  }

  /** Soundness: every reported word is held by the trie and occurs in the
      text read, provided the scan starts at a node spelling a suffix of
      what was read before. */
  lemma {:induction false} ScanSound(nodes: seq<Node>, paths: seq<string>, parents: seq<nat>,
                                     read: string, text: string, cur: nat)
    requires Shaped(nodes, paths, parents) && Built(nodes) && cur < |nodes|
    requires IsSuffix(paths[cur], read)
    ensures forall w :: w in ScanFrom(nodes, paths, text, cur) ==> w in Words(nodes) && Contains(read + text, w)
    decreases |text|
  {
    if text != [] {
      var c := text[0];
      var f := Follow(nodes, paths, cur, c);
      var read' := read + [c];
      assert read' + text[1..] == read + text;
      FollowSuffix(nodes, paths, parents, read, cur, c);
      if c in nodes[f].children {
        var n := nodes[f].children[c];
        ChildSuffix(nodes, paths, parents, read, f, c);
        ReportsInText(nodes, paths, parents, n, read', text[1..]);
        ScanSound(nodes, paths, parents, read', text[1..], n);
      } else {
        assert f == 0;
        ScanSound(nodes, paths, parents, read', text[1..], f);
      }
    }
  }

  /** Following failure links from a node spelling a suffix of `read`
      stops at a node spelling a suffix of `read`. */
  lemma FollowSuffix(nodes: seq<Node>, paths: seq<string>, parents: seq<nat>, read: string, cur: nat, c: char)
    requires Shaped(nodes, paths, parents) && Built(nodes) && cur < |nodes|
    requires IsSuffix(paths[cur], read)
    ensures IsSuffix(paths[Follow(nodes, paths, cur, c)], read)
  {
    var f := Follow(nodes, paths, cur, c);
    assert read[|read| - |paths[f]|..] == read[|read| - |paths[cur]|..][|paths[cur]| - |paths[f]|..];
  }

  /** Reading `c` from a node spelling a suffix of `read` reaches a node
      spelling a suffix of `read + [c]`. */
  lemma ChildSuffix(nodes: seq<Node>, paths: seq<string>, parents: seq<nat>, read: string, f: nat, c: char)
    requires Shaped(nodes, paths, parents) && f < |nodes| && c in nodes[f].children
    requires IsSuffix(paths[f], read)
    ensures ChildOk(nodes, paths, f, c) && IsSuffix(paths[nodes[f].children[c]], read + [c])
  {
    var n := nodes[f].children[c];
    var read' := read + [c];
    assert ChildOk(nodes, paths, f, c);
    assert read'[|read'| - |paths[n]|..] == read[|read| - |paths[f]|..] + [c];
  }

  /** The words reported at a node spelling a suffix of `read` occur in
      anything that `read` begins. */
  lemma ReportsInText(nodes: seq<Node>, paths: seq<string>, parents: seq<nat>, n: nat, read: string, rest: string)
    requires Shaped(nodes, paths, parents) && n < |nodes| && IsSuffix(paths[n], read)
    ensures forall w :: w in Reports(nodes[n]) ==> w in Words(nodes) && Contains(read + rest, w)
  {
    ReportsSound(nodes, paths, parents, n, read);
    forall w | w in Reports(nodes[n]) ensures Contains(read + rest, w) {
      ContainedInLonger(read, rest, w);
    }
  }

  /** Every prefix of a node's string is itself spelled by a node. */
  lemma {:induction false} PrefixNode(nodes: seq<Node>, paths: seq<string>, parents: seq<nat>, j: nat, k: nat)
    returns (q: nat)
    requires Shaped(nodes, paths, parents) && j < |nodes| && k <= |paths[j]|
    ensures q < |nodes| && paths[q] == paths[j][..k]
    decreases |paths[j]|
  {
    if k == |paths[j]| {
      q := j;
    } else {
      assert j != 0;
      assert HasParent(nodes, paths, parents, j);
      var p := parents[j];
      var c := paths[j][|paths[j]| - 1];
      assert ChildOk(nodes, paths, p, c);
      assert paths[p] == paths[j][..|paths[j]| - 1];
      q := PrefixNode(nodes, paths, parents, p, k);
    }
  }

  /** Prefix completeness: a held word whose remaining characters start the
      text is reported when the scan stands on the node for the characters
      already matched. */
  lemma {:induction false} ScanFindsPrefix(nodes: seq<Node>, paths: seq<string>, parents: seq<nat>,
                                           text: string, cur: nat, w: string)
    requires Shaped(nodes, paths, parents) && Built(nodes) && cur < |nodes|
    requires w in Words(nodes) && |paths[cur]| < |w| && w[..|paths[cur]|] == paths[cur]
    requires StartsWith(text, w[|paths[cur]|..])
    ensures w in ScanFrom(nodes, paths, text, cur)
    decreases |text|
  {
    var e :| 0 <= e < |nodes| && nodes[e].isEnd && nodes[e].word == w;
    assert EndOk(nodes, paths, e);
    var m := |paths[cur]|;
    var c := text[0];
    assert c == w[m];
    var q := PrefixNode(nodes, paths, parents, e, m + 1);
    assert q != 0;
    assert HasParent(nodes, paths, parents, q);
    var p := parents[q];
    var d := paths[q][|paths[q]| - 1];
    assert d == c;
    assert ChildOk(nodes, paths, p, d);
    assert paths[p] == paths[q][..m];
    assert paths[cur] == w[..m];
    assert Apart(paths, p, cur);
    assert Follow(nodes, paths, cur, c) == cur;
    if m + 1 == |w| {
      assert paths[q] == w;
      assert Apart(paths, q, e);
    } else {
      assert w[m + 1..] == w[m..][1..];
      ScanFindsPrefix(nodes, paths, parents, text[1..], q, w);
    }
  }

  /** A text that starts with a held word reports that word; in particular a
      text equal to a held word does. */
  lemma ScanReportsLeadingWord(nodes: seq<Node>, paths: seq<string>, parents: seq<nat>, text: string, w: string)
    requires Shaped(nodes, paths, parents) && Built(nodes)
    requires w in Words(nodes) && StartsWith(text, w)
    ensures w in ScanFrom(nodes, paths, text, 0)
  {
    var e :| 0 <= e < |nodes| && nodes[e].isEnd && nodes[e].word == w;
    assert EndOk(nodes, paths, e);
    ScanFindsPrefix(nodes, paths, parents, text, 0, w);
  }
}
