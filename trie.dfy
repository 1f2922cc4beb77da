/** The character trie (`AdvancedDataStructures.Trie.Trie`).

    Every `TrieNode` holds a `Children` dictionary from a character to a child
    node and an `IsEndOfWord` mark.  The nodes live in an arena: `nodes[x]` is
    the node with handle `x`, `nodes[0]` is `_root`, and a dictionary is the
    list of its `(key, child)` entries in insertion order, the order in which
    `Dictionary<char, TrieNode>` enumerates entries that were never removed.
    A stored word is a string that spells a path from the root to a node
    marked as an end of word. */
module Tries {
  import opened Items

  /** A node: its children, oldest entry first, and `IsEndOfWord`. */
  datatype TrieNode = TrieNode(children: seq<(char, nat)>, isEnd: bool)

  // ---------------------------------------------------------------------------
  // Trimming

  /** The 25 characters `char.IsWhiteSpace` accepts, listed one by one: the
      space separators (Unicode category Zs), the line separator (Zl), the
      paragraph separator (Zp), and the controls U+0009 to U+000D and U+0085. */
  const WhiteSpaceChars: set<char> := {
    ' ', '\U{00A0}', '\U{1680}', '\U{2000}', '\U{2001}', '\U{2002}', '\U{2003}',
    '\U{2004}', '\U{2005}', '\U{2006}', '\U{2007}', '\U{2008}', '\U{2009}',
    '\U{200A}', '\U{202F}', '\U{205F}', '\U{3000}',
    '\U{2028}',
    '\U{2029}',
    '\U{0009}', '\U{000A}', '\U{000B}', '\U{000C}', '\U{000D}', '\U{0085}'
  }

  /** `char.IsWhiteSpace`, as range tests: it accepts exactly the listed
      white-space characters. */
  predicate IsWhiteSpace(c: char): (r: bool)
    ensures r <==> c in WhiteSpaceChars
  {
    c == ' ' || '\U{0009}' <= c <= '\U{000D}' || c == '\U{0085}' || c == '\U{00A0}' ||
    c == '\U{1680}' || '\U{2000}' <= c <= '\U{200A}' || c == '\U{2028}' || c == '\U{2029}' ||
    c == '\U{202F}' || c == '\U{205F}' || c == '\U{3000}'
  }

  /** Every character of `s` is white space. */
  predicate Blank(s: string) {
    forall j :: 0 <= j < |s| ==> IsWhiteSpace(s[j])
  }

  /** The first position at or after `i` whose character is not white
      space, or `|s|`: the forward scan of `string.Trim()`. */
  function SkipLeading(s: string, i: nat): (k: nat)
    requires i <= |s|
    ensures i <= k <= |s|
    ensures forall j :: i <= j < k ==> IsWhiteSpace(s[j])
    ensures k < |s| ==> !IsWhiteSpace(s[k])
    decreases |s| - i
  {
    if i < |s| && IsWhiteSpace(s[i]) then SkipLeading(s, i + 1) else i
  }

  /** The end of what is left of `s[lo..k]` once the white space at its end is
      cut off: the backward scan of `string.Trim()`, which stops at `lo`. */
  function SkipTrailing(s: string, lo: nat, k: nat): (e: nat)
    requires lo <= k <= |s|
    ensures lo <= e <= k
    ensures forall j :: e <= j < k ==> IsWhiteSpace(s[j])
    ensures lo < e ==> !IsWhiteSpace(s[e - 1])
    decreases k
  {
    if lo < k && IsWhiteSpace(s[k - 1]) then SkipTrailing(s, lo, k - 1) else k
  }

  /** `string.Trim()`: what is left after cutting the white space off both
      ends.  It is empty exactly when `s` is blank, and otherwise starts and
      ends with a character that is not white space. */
  function Trim(s: string): (r: string)
    ensures |r| <= |s|
    ensures r == [] <==> Blank(s)
    ensures r != [] ==> !IsWhiteSpace(r[0]) && !IsWhiteSpace(r[|r| - 1])
  {
    var i := SkipLeading(s, 0);
    var e := SkipTrailing(s, i, |s|);
    assert e == i ==> Blank(s) by {
      if e == i {
        forall j | 0 <= j < |s| ensures IsWhiteSpace(s[j]) {
          assert j < i || e <= j;
        }
      }
    }
    assert Blank(s) ==> i == |s|;
    s[i..e]
  }

  /** `r` is the slice of `s` that starts at `i`, with only white space
      before and after it. */
  ghost predicate Framed(s: string, i: nat, r: string) {
    i + |r| <= |s| && r == s[i..i + |r|] && Blank(s[..i]) && Blank(s[i + |r|..])
  }

  /** The trimmed word is the slice of `s` after its leading white space,
      with only white space around it. */
  lemma TrimSlice(s: string)
    ensures Framed(s, SkipLeading(s, 0), Trim(s))
  {
    var i := SkipLeading(s, 0);
    var e := SkipTrailing(s, i, |s|);
    assert Trim(s) == s[i..e];
    assert forall j :: 0 <= j < |s[e..]| ==> s[e..][j] == s[e + j];
  }

  // ---------------------------------------------------------------------------
  // Dictionaries

  /** The position of the entry filed under `c`, or `|entries|` when there is
      none. */
  function Slot(entries: seq<(char, nat)>, c: char): (j: nat)
    ensures j <= |entries|
    ensures j < |entries| ==> entries[j].0 == c
    ensures forall i :: 0 <= i < j ==> entries[i].0 != c
  {
    if entries == [] || entries[0].0 == c then 0 else 1 + Slot(entries[1..], c)
  }

  /** `Children.TryGetValue(c, out child)`: the child filed under `c`, if
      any. */
  function Child(entries: seq<(char, nat)>, c: char): (r: Option<nat>)
    ensures r.None? <==> forall j :: 0 <= j < |entries| ==> entries[j].0 != c
    ensures r.Some? ==> (c, r.value) in entries
  {
    var j := Slot(entries, c);
    if j < |entries| then Some(entries[j].1) else None
  }

  /** No two entries share a key. */
  predicate DistinctKeys(entries: seq<(char, nat)>) {
    forall i, j :: 0 <= i < j < |entries| ==> entries[i].0 != entries[j].0
  }

  /** With distinct keys an entry is the one its key finds. */
  lemma ChildOfEntry(entries: seq<(char, nat)>, j: nat)
    requires DistinctKeys(entries) && j < |entries|
    ensures Child(entries, entries[j].0) == Some(entries[j].1)
  {
    assert forall i :: 0 <= i < j ==> entries[i].0 != entries[j].0;
  }

  /** A key found among the first `k` entries is found there in the whole
      list too: appending entries changes no earlier lookup. */
  lemma ChildOfPrefix(entries: seq<(char, nat)>, k: nat, c: char)
    requires k <= |entries| && Child(entries[..k], c).Some?
    ensures Child(entries, c) == Child(entries[..k], c)
  {
    var j := Slot(entries[..k], c);
    assert entries[..k][j] == entries[j];
    forall i | 0 <= i < j ensures entries[i].0 != c {
      assert entries[..k][i] == entries[i];
    }
  }

  // ---------------------------------------------------------------------------
  // The arena

  /** Every child handle names a node of the arena. */
  predicate Closed(nodes: seq<TrieNode>) {
    forall x, j :: 0 <= x < |nodes| && 0 <= j < |nodes[x].children| ==> nodes[x].children[j].1 < |nodes|
  }

  /** A child is created after its parent, so its handle is larger: the nodes
      form a tree hanging from the root and every descent ends. */
  predicate Downward(nodes: seq<TrieNode>) {
    forall x, j :: 0 <= x < |nodes| && 0 <= j < |nodes[x].children| ==> x < nodes[x].children[j].1
  }

  /** Closed and downward. */
  predicate Tree(nodes: seq<TrieNode>) {
    Closed(nodes) && Downward(nodes)
  }

  /** Every dictionary has distinct keys. */
  predicate Keyed(nodes: seq<TrieNode>) {
    forall x :: 0 <= x < |nodes| ==> DistinctKeys(nodes[x].children)
  }

  /** The node reached from `n` by following the characters of `u`, or `None`
      at the first character with no child. */
  function Reach(nodes: seq<TrieNode>, n: nat, u: string): (r: Option<nat>)
    requires Closed(nodes) && n < |nodes|
    ensures r.Some? ==> r.value < |nodes|
    decreases |u|
  {
    if u == [] then Some(n)
    else
      match Child(nodes[n].children, u[0])
      case None => None
      case Some(y) => Reach(nodes, y, u[1..])
  }

  /** `s` spells a path from `n` to an end-of-word node. */
  ghost predicate IsWordFrom(nodes: seq<TrieNode>, n: nat, s: string)
    requires Closed(nodes) && n < |nodes|
  {
    Reach(nodes, n, s).Some? && nodes[Reach(nodes, n, s).value].isEnd
  }

  /** `s` is a stored word: it spells a path from the root to an end-of-word
      node. */
  ghost predicate IsWord(nodes: seq<TrieNode>, s: string)
    requires Closed(nodes) && |nodes| > 0
  {
    IsWordFrom(nodes, 0, s)
  }

  /** Following `u + v` is following `u`, then `v` from where `u` ends. */
  lemma {:induction false} ReachConcat(nodes: seq<TrieNode>, n: nat, u: string, v: string)
    requires Closed(nodes) && n < |nodes|
    ensures Reach(nodes, n, u + v) ==
            if Reach(nodes, n, u).Some? then Reach(nodes, Reach(nodes, n, u).value, v) else None
    decreases |u|
  {
    if u == [] {
      assert u + v == v;
    } else {
      assert (u + v)[0] == u[0] && (u + v)[1..] == u[1..] + v;
      match Child(nodes[n].children, u[0])
      case None =>
      case Some(y) => ReachConcat(nodes, y, u[1..], v);
    }
  }

  /** The ghost labelling: `spelling[x]` is the string the path to `x` spells.
      Each entry extends its parent's spelling by its key. */
  ghost predicate Labelled(nodes: seq<TrieNode>, spelling: seq<string>) {
    |spelling| == |nodes| &&
    forall x, j :: 0 <= x < |nodes| && 0 <= j < |nodes[x].children| && nodes[x].children[j].1 < |nodes| ==>
      spelling[nodes[x].children[j].1] == spelling[x] + [nodes[x].children[j].0]
  }

  /** Every node is reached from the root by its spelling. */
  ghost predicate Reachable(nodes: seq<TrieNode>, spelling: seq<string>)
    requires Closed(nodes) && |nodes| > 0 && |spelling| == |nodes|
  {
    forall x :: 0 <= x < |nodes| ==> Reach(nodes, 0, spelling[x]) == Some(x)
  }

  /** The shape every trie keeps: a keyed tree under an unmarked root, each
      node labelled by, and reachable through, the string of its path. */
  ghost predicate Shaped(nodes: seq<TrieNode>, spelling: seq<string>) {
    |nodes| > 0 && Tree(nodes) && Keyed(nodes) && Labelled(nodes, spelling) &&
    spelling[0] == [] && !nodes[0].isEnd && Reachable(nodes, spelling)
  }

  /** Following `u` from `n` ends at a node whose spelling is `n`'s extended by
      `u`: a node is reached by one string only. */
  lemma {:induction false} ReachLabel(nodes: seq<TrieNode>, spelling: seq<string>, n: nat, u: string)
    requires Closed(nodes) && Labelled(nodes, spelling) && n < |nodes|
    ensures Reach(nodes, n, u).Some? ==> spelling[Reach(nodes, n, u).value] == spelling[n] + u
    decreases |u|
  {
    if u != [] {
      var es := nodes[n].children;
      match Child(es, u[0])
      case None =>
      case Some(y) =>
        var j := Slot(es, u[0]);
        assert es[j] == (u[0], y);
        ReachLabel(nodes, spelling, y, u[1..]);
        assert spelling[n] + [u[0]] + u[1..] == spelling[n] + u;
    }
  }

  /** The empty string is not a stored word: the root is never marked. */
  lemma EmptyIsNoWord(nodes: seq<TrieNode>, spelling: seq<string>)
    requires Shaped(nodes, spelling)
    ensures !IsWord(nodes, [])
  {
    assert Reach(nodes, 0, []) == Some(0);
  }

  // ---------------------------------------------------------------------------
  // Growing the arena

  /** `after` holds the nodes of `before`, each with its old entries first;
      the marks are not compared. */
  ghost predicate Grown(before: seq<TrieNode>, after: seq<TrieNode>) {
    |before| <= |after| &&
    forall x :: 0 <= x < |before| ==>
      |before[x].children| <= |after[x].children| &&
      after[x].children[..|before[x].children|] == before[x].children
  }

  /** A path that exists before the arena grows leads to the same node
      after. */
  lemma {:induction false} GrownReach(before: seq<TrieNode>, after: seq<TrieNode>, n: nat, u: string)
    requires Closed(before) && Closed(after) && Grown(before, after) && n < |before|
    requires Reach(before, n, u).Some?
    ensures Reach(after, n, u) == Reach(before, n, u)
    decreases |u|
  {
    if u != [] {
      var y := Child(before[n].children, u[0]).value;
      ChildOfPrefix(after[n].children, |before[n].children|, u[0]);
      GrownReach(before, after, y, u[1..]);
    }
  }

  /** Two arenas with the same dictionaries have the same paths. */
  lemma {:induction false} SameChildrenReach(before: seq<TrieNode>, after: seq<TrieNode>, n: nat, u: string)
    requires Closed(before) && |after| == |before| && n < |before|
    requires forall x :: 0 <= x < |before| ==> after[x].children == before[x].children
    ensures Closed(after) && Reach(after, n, u) == Reach(before, n, u)
    decreases |u|
  {
    assert Closed(after) by {
      forall x, j | 0 <= x < |after| && 0 <= j < |after[x].children|
        ensures after[x].children[j].1 < |after|
      {
        assert after[x].children[j] == before[x].children[j];
      }
    }
    if u != [] {
      match Child(before[n].children, u[0])
      case None =>
      case Some(y) => SameChildrenReach(before, after, y, u[1..]);
    }
  }

  /** The arena after `current.Children[c] = new TrieNode()`: the entry for
      `c` appended to node `x`, the new node appended to the arena. */
  function AddChild(nodes: seq<TrieNode>, x: nat, c: char): (after: seq<TrieNode>)
    requires x < |nodes| && Child(nodes[x].children, c).None?
    ensures |after| == |nodes| + 1 && after[|nodes|] == TrieNode([], false)
    ensures Grown(nodes, after)
    ensures forall y :: 0 <= y < |nodes| ==> after[y].isEnd == nodes[y].isEnd
    ensures Child(after[x].children, c) == Some(|nodes|)
  {
    var es := nodes[x].children;
    var after := nodes[x := nodes[x].(children := es + [(c, |nodes|)])] + [TrieNode([], false)];
    assert after[x].children == es + [(c, |nodes|)];
    assert after[x].children[..|es|] == es;
    assert forall i :: 0 <= i < |es| ==> after[x].children[i] == es[i];
    assert after[x].children[|es|] == (c, |nodes|);
    assert Slot(after[x].children, c) == |es|;
    after
  }

  /** Adding a child under a key the node lacks keeps the dictionaries
      distinct-keyed and the arena a tree. */
  lemma AddChildTree(nodes: seq<TrieNode>, x: nat, c: char)
    requires Tree(nodes) && Keyed(nodes) && x < |nodes| && Child(nodes[x].children, c).None?
    ensures Tree(AddChild(nodes, x, c)) && Keyed(AddChild(nodes, x, c))
  {
    var after := AddChild(nodes, x, c);
    var es := nodes[x].children;
    assert after[x].children == es + [(c, |nodes|)];
    forall y, j | 0 <= y < |after| && 0 <= j < |after[y].children|
      ensures y < after[y].children[j].1 < |after|
    {
      if y != x {
        assert after[y].children[j] == nodes[y].children[j];
      } else if j < |es| {
        assert after[y].children[j] == es[j];
      }
    }
  }

  /** The new node's spelling extends its parent's by the new key. */
  lemma AddChildLabels(nodes: seq<TrieNode>, spelling: seq<string>, x: nat, c: char)
    requires Closed(nodes) && Labelled(nodes, spelling) && x < |nodes| && Child(nodes[x].children, c).None?
    ensures Labelled(AddChild(nodes, x, c), spelling + [spelling[x] + [c]])
  {
    var after := AddChild(nodes, x, c);
    var spelling' := spelling + [spelling[x] + [c]];
    var es := nodes[x].children;
    assert after[x].children == es + [(c, |nodes|)];
    forall y, j | 0 <= y < |after| && 0 <= j < |after[y].children| && after[y].children[j].1 < |after|
      ensures spelling'[after[y].children[j].1] == spelling'[y] + [after[y].children[j].0]
    {
      if y != x {
        assert after[y].children[j] == nodes[y].children[j];
      } else if j < |es| {
        assert after[y].children[j] == es[j];
      }
    }
  }

  /** Adding a child keeps every node reachable by its spelling, the new one
      included. */
  lemma AddChildReachable(nodes: seq<TrieNode>, spelling: seq<string>, x: nat, c: char)
    requires Shaped(nodes, spelling) && x < |nodes| && Child(nodes[x].children, c).None?
    ensures Reachable(AddChild(nodes, x, c), spelling + [spelling[x] + [c]])
  {
    var after := AddChild(nodes, x, c);
    var spelling' := spelling + [spelling[x] + [c]];
    AddChildTree(nodes, x, c);
    forall y | 0 <= y < |after| ensures Reach(after, 0, spelling'[y]) == Some(y) {
      ReachAfterAdd(nodes, spelling, x, c, y);
    }
  }

  /** One node of `AddChildReachable`: an old node keeps its path, and the
      new node is reached by its parent's spelling plus the new key. */
  lemma ReachAfterAdd(nodes: seq<TrieNode>, spelling: seq<string>, x: nat, c: char, y: nat)
    requires Closed(nodes) && |spelling| == |nodes| && x < |nodes| && Child(nodes[x].children, c).None?
    requires Closed(AddChild(nodes, x, c)) && y <= |nodes|
    requires forall z :: 0 <= z < |nodes| ==> Reach(nodes, 0, spelling[z]) == Some(z)
    ensures Reach(AddChild(nodes, x, c), 0, (spelling + [spelling[x] + [c]])[y]) == Some(y)
  {
    var after := AddChild(nodes, x, c);
    if y < |nodes| {
      assert (spelling + [spelling[x] + [c]])[y] == spelling[y];
      GrownReach(nodes, after, 0, spelling[y]);
    } else {
      GrownReach(nodes, after, 0, spelling[x]);
      ReachConcat(after, 0, spelling[x], [c]);
    }
  }

  /** One step of `Insert`'s loop that creates a node keeps the shape. */
  lemma AddChildShaped(nodes: seq<TrieNode>, spelling: seq<string>, x: nat, c: char)
    requires Shaped(nodes, spelling) && x < |nodes| && Child(nodes[x].children, c).None?
    ensures Shaped(AddChild(nodes, x, c), spelling + [spelling[x] + [c]])
  {
    AddChildTree(nodes, x, c);
    AddChildLabels(nodes, spelling, x, c);
    AddChildReachable(nodes, spelling, x, c);
  }

  /** `Grown` carries over a step of `AddChild`. */
  lemma GrownThenAdd(before: seq<TrieNode>, nodes: seq<TrieNode>, x: nat, c: char)
    requires Grown(before, nodes) && x < |nodes| && Child(nodes[x].children, c).None?
    ensures Grown(before, AddChild(nodes, x, c))
  {
    var after := AddChild(nodes, x, c);
    forall y | 0 <= y < |before|
      ensures |before[y].children| <= |after[y].children| &&
              after[y].children[..|before[y].children|] == before[y].children
    {
      var k := |before[y].children|;
      assert after[y].children[..|nodes[y].children|] == nodes[y].children;
      assert after[y].children[..k] == nodes[y].children[..k];
    }
  }

  /** The invariant of `Insert`'s loop after `i` characters: the arena only
      grew from `before`, old nodes keep their spelling and mark, new nodes
      are unmarked, `current` is the node `w[..i]` spells, and nothing has
      changed while `w` is already stored. */
  ghost predicate Walked(before: seq<TrieNode>, spellingBefore: seq<string>, nodes: seq<TrieNode>,
                         spelling: seq<string>, current: nat, w: string, i: nat)
  {
    Shaped(before, spellingBefore) && Shaped(nodes, spelling) && Grown(before, nodes) &&
    (forall x :: 0 <= x < |before| ==> spelling[x] == spellingBefore[x] && nodes[x].isEnd == before[x].isEnd) &&
    (forall x :: |before| <= x < |nodes| ==> !nodes[x].isEnd) &&
    i <= |w| && current < |nodes| && spelling[current] == w[..i] &&
    (IsWord(before, w) ==> nodes == before && spelling == spellingBefore)
  }

  /** The loop starts at the root. */
  lemma WalkStart(nodes: seq<TrieNode>, spelling: seq<string>, w: string)
    requires Shaped(nodes, spelling)
    ensures Walked(nodes, spelling, nodes, spelling, 0, w, 0)
  {
    assert w[..0] == [];
  }

  /** A step that follows an existing child keeps the invariant. */
  lemma WalkFollow(before: seq<TrieNode>, spellingBefore: seq<string>, nodes: seq<TrieNode>,
                   spelling: seq<string>, current: nat, w: string, i: nat)
    requires Walked(before, spellingBefore, nodes, spelling, current, w, i) && i < |w|
    requires Child(nodes[current].children, w[i]).Some?
    ensures Walked(before, spellingBefore, nodes, spelling, Child(nodes[current].children, w[i]).value, w, i + 1)
  {
    assert Reach(nodes, 0, spelling[current]) == Some(current);
    ReachStep(nodes, w, i, current);
    ReachLabel(nodes, spelling, 0, w[..i + 1]);
    assert spelling[0] + w[..i + 1] == w[..i + 1];
  }

  /** A step that creates the missing child keeps the invariant, and shows
      that `w` was not stored. */
  lemma WalkCreate(before: seq<TrieNode>, spellingBefore: seq<string>, nodes: seq<TrieNode>,
                   spelling: seq<string>, current: nat, w: string, i: nat)
    requires Walked(before, spellingBefore, nodes, spelling, current, w, i) && i < |w|
    requires Child(nodes[current].children, w[i]).None?
    ensures Walked(before, spellingBefore, AddChild(nodes, current, w[i]),
                   spelling + [spelling[current] + [w[i]]], |nodes|, w, i + 1)
  {
    var after := AddChild(nodes, current, w[i]);
    var spelling' := spelling + [spelling[current] + [w[i]]];
    assert Reach(nodes, 0, spelling[current]) == Some(current);
    ReachStep(nodes, w, i, current);
    assert !IsWord(nodes, w);
    AddChildShaped(nodes, spelling, current, w[i]);
    GrownThenAdd(before, nodes, current, w[i]);
    PrefixSnoc(w, i);
    assert spelling'[..|spelling|] == spelling;
    AddChildMarks(before, spellingBefore, nodes, spelling, after, spelling');
  }

  /** A step that adds one unmarked node and keeps every other mark and
      spelling keeps every old node's spelling and mark, and every node added
      since `before` unmarked. */
  lemma AddChildMarks(before: seq<TrieNode>, spellingBefore: seq<string>, nodes: seq<TrieNode>,
                      spelling: seq<string>, after: seq<TrieNode>, spelling': seq<string>)
    requires |before| == |spellingBefore| <= |nodes| == |spelling|
    requires |after| == |nodes| + 1 && !after[|nodes|].isEnd
    requires forall y :: 0 <= y < |nodes| ==> after[y].isEnd == nodes[y].isEnd
    requires |spelling'| == |spelling| + 1 && spelling'[..|spelling|] == spelling
    requires forall y :: 0 <= y < |before| ==> spelling[y] == spellingBefore[y] && nodes[y].isEnd == before[y].isEnd
    requires forall y :: |before| <= y < |nodes| ==> !nodes[y].isEnd
    ensures forall y :: 0 <= y < |before| ==> spelling'[y] == spellingBefore[y] && after[y].isEnd == before[y].isEnd
    ensures forall y :: |before| <= y < |after| ==> !after[y].isEnd
  {
    forall y | 0 <= y < |before| ensures spelling'[y] == spellingBefore[y] {
      assert spelling'[..|spelling|][y] == spelling[y];
    }
  }

  /** After the last character the loop leaves what `MarkWord` needs. */
  lemma WalkDone(before: seq<TrieNode>, spellingBefore: seq<string>, nodes: seq<TrieNode>,
                 spelling: seq<string>, current: nat, w: string)
    requires Walked(before, spellingBefore, nodes, spelling, current, w, |w|) && w != []
    ensures LoopDone(before, spellingBefore, nodes, spelling, current, w)
    ensures IsWord(before, w) ==> nodes == before && spelling == spellingBefore && IsWord(nodes, w)
  {
    assert w[..|w|] == w;
  }

  /** Marking a node other than the root changes no dictionary, so it keeps
      the shape and every path. */
  lemma MarkShaped(nodes: seq<TrieNode>, spelling: seq<string>, e: nat)
    requires Shaped(nodes, spelling) && 0 < e < |nodes|
    ensures Shaped(nodes[e := nodes[e].(isEnd := true)], spelling)
    ensures forall u :: Reach(nodes[e := nodes[e].(isEnd := true)], 0, u) == Reach(nodes, 0, u)
  {
    var after := nodes[e := nodes[e].(isEnd := true)];
    assert forall x :: 0 <= x < |nodes| ==> after[x].children == nodes[x].children;
    forall u ensures Closed(after) && Reach(after, 0, u) == Reach(nodes, 0, u) {
      SameChildrenReach(nodes, after, 0, u);
    }
    assert Downward(after) && Keyed(after) && Labelled(after, spelling);
  }

  /** The facts `Insert`'s loop leaves behind: the arena only grew, old
      nodes keep their spelling and mark, new nodes are unmarked, and `e`
      is the node the (non-empty) word `w` spells. */
  ghost predicate LoopDone(before: seq<TrieNode>, spellingBefore: seq<string>, nodes: seq<TrieNode>,
                           spelling: seq<string>, e: nat, w: string)
  {
    Shaped(before, spellingBefore) && Shaped(nodes, spelling) && Grown(before, nodes) &&
    (forall x :: 0 <= x < |before| ==> spelling[x] == spellingBefore[x] && nodes[x].isEnd == before[x].isEnd) &&
    (forall x :: |before| <= x < |nodes| ==> !nodes[x].isEnd) &&
    e < |nodes| && spelling[e] == w && w != []
  }

  /** Marking keeps every stored word and stores `w`. */
  lemma MarkKeeps(before: seq<TrieNode>, spellingBefore: seq<string>, nodes: seq<TrieNode>, spelling: seq<string>,
                  e: nat, w: string, u: string)
    requires LoopDone(before, spellingBefore, nodes, spelling, e, w)
    requires 0 < e && forall v :: Reach(nodes[e := nodes[e].(isEnd := true)], 0, v) == Reach(nodes, 0, v)
    requires IsWord(before, u) || u == w
    ensures Closed(nodes[e := nodes[e].(isEnd := true)]) && IsWord(nodes[e := nodes[e].(isEnd := true)], u)
  {
    MarkShaped(nodes, spelling, e);
    if IsWord(before, u) {
      GrownReach(before, nodes, 0, u);
    } else {
      assert Reach(nodes, 0, spelling[e]) == Some(e);
    }
  }

  /** Marking stores no word but `w` and the old ones. */
  lemma MarkOnly(before: seq<TrieNode>, spellingBefore: seq<string>, nodes: seq<TrieNode>, spelling: seq<string>,
                 e: nat, w: string, u: string)
    requires LoopDone(before, spellingBefore, nodes, spelling, e, w)
    requires 0 < e && forall v :: Reach(nodes[e := nodes[e].(isEnd := true)], 0, v) == Reach(nodes, 0, v)
    requires Closed(nodes[e := nodes[e].(isEnd := true)]) && IsWord(nodes[e := nodes[e].(isEnd := true)], u)
    ensures IsWord(before, u) || u == w
  {
    var x := Reach(nodes, 0, u).value;
    ReachLabel(nodes, spelling, 0, u);
    assert spelling[x] == u by {
      assert spelling[0] + u == u;
    }
    if x != e {
      assert x < |before|;
      assert Reach(before, 0, spellingBefore[x]) == Some(x);
    }
  }

  /** Marking the node `Insert`'s loop ends at (`current.IsEndOfWord =
      true`) stores exactly one more word, the one the loop spelled; when
      that word was stored already, the arena is left as it was. */
  lemma MarkWord(before: seq<TrieNode>, spellingBefore: seq<string>, nodes: seq<TrieNode>, spelling: seq<string>,
                 e: nat, w: string)
    requires LoopDone(before, spellingBefore, nodes, spelling, e, w)
    ensures Shaped(nodes[e := nodes[e].(isEnd := true)], spelling)
    ensures forall u :: IsWord(nodes[e := nodes[e].(isEnd := true)], u) <==> IsWord(before, u) || u == w
    ensures IsWord(nodes, w) ==> nodes[e := nodes[e].(isEnd := true)] == nodes
  {
    assert e != 0;
    MarkShaped(nodes, spelling, e);
    forall u ensures IsWord(nodes[e := nodes[e].(isEnd := true)], u) <==> IsWord(before, u) || u == w {
      if IsWord(before, u) || u == w {
        MarkKeeps(before, spellingBefore, nodes, spelling, e, w, u);
      }
      if IsWord(nodes[e := nodes[e].(isEnd := true)], u) {
        MarkOnly(before, spellingBefore, nodes, spelling, e, w, u);
      }
    }
    assert Reach(nodes, 0, spelling[e]) == Some(e);
    if IsWord(nodes, w) {
      assert nodes[e].(isEnd := true) == nodes[e];
    }
  }

  // ---------------------------------------------------------------------------
  // Enumeration

  /** `Traverse(node, prefix)`: `prefix` when the node is marked, then the
      words below each child in dictionary order. */
  function Traverse(nodes: seq<TrieNode>, n: nat, prefix: string): (words: seq<string>)
    requires Tree(nodes) && n < |nodes|
    decreases |nodes| - n, 1
  {
    (if nodes[n].isEnd then [prefix] else []) + Branches(nodes, n, prefix, |nodes[n].children|)
  }

  /** The words below the first `i` children of `n`, in dictionary order. */
  function Branches(nodes: seq<TrieNode>, n: nat, prefix: string, i: nat): (words: seq<string>)
    requires Tree(nodes) && n < |nodes| && i <= |nodes[n].children|
    decreases |nodes| - n, 0, i
  {
    if i == 0 then []
    else
      var (c, y) := nodes[n].children[i - 1];
      Branches(nodes, n, prefix, i - 1) + Traverse(nodes, y, prefix + [c])
  }

  /** `x` extends `prefix` by a word stored below `n`. */
  ghost predicate Below(nodes: seq<TrieNode>, n: nat, prefix: string, x: string)
    requires Closed(nodes) && n < |nodes|
  {
    prefix <= x && IsWordFrom(nodes, n, x[|prefix|..])
  }

  /** The traversal from `n` with `prefix` yields exactly `prefix` followed by
      each word stored below `n`. */
  lemma {:induction false} TraverseWords(nodes: seq<TrieNode>, n: nat, prefix: string, x: string)
    requires Tree(nodes) && Keyed(nodes) && n < |nodes|
    ensures x in Traverse(nodes, n, prefix) <==> Below(nodes, n, prefix, x)
    decreases |nodes| - n, 1
  {
    var es := nodes[n].children;
    BranchesWords(nodes, n, prefix, |es|, x);
    if prefix <= x {
      var s := x[|prefix|..];
      if s != [] {
        assert x[..|prefix| + 1] == prefix + [s[0]] && x[|prefix| + 1..] == s[1..];
      } else {
        assert x == prefix;
      }
    }
  }

  /** The words below the first `i` children: each extends `prefix` by the
      key of one of those children and a word stored below it. */
  lemma {:induction false} BranchesWords(nodes: seq<TrieNode>, n: nat, prefix: string, i: nat, x: string)
    requires Tree(nodes) && Keyed(nodes) && n < |nodes| && i <= |nodes[n].children|
    ensures x in Branches(nodes, n, prefix, i) <==>
              |prefix| < |x| && prefix <= x && Slot(nodes[n].children, x[|prefix|]) < i &&
              Below(nodes, nodes[n].children[Slot(nodes[n].children, x[|prefix|])].1, prefix + [x[|prefix|]], x)
    decreases |nodes| - n, 0, i
  {
    if i > 0 {
      var es := nodes[n].children;
      var (c, y) := es[i - 1];
      BranchesWords(nodes, n, prefix, i - 1, x);
      TraverseWords(nodes, y, prefix + [c], x);
      ChildOfEntry(es, i - 1);
      if prefix + [c] <= x {
        assert x[|prefix|] == (prefix + [c])[|prefix|] == c;
        assert prefix <= x by {
          assert x[..|prefix|] == x[..|prefix| + 1][..|prefix|];
        }
      }
    }
  }

  /** No string occurs twice. */
  ghost predicate Distinct(s: seq<string>) {
    forall i, j :: 0 <= i < j < |s| ==> s[i] != s[j]
  }

  /** Two disjoint lists without repeats concatenate to one without. */
  lemma DistinctConcat(a: seq<string>, b: seq<string>)
    requires Distinct(a) && Distinct(b) && forall x :: x in a ==> x !in b
    ensures Distinct(a + b)
  {
    forall i, j | 0 <= i < j < |a + b| ensures (a + b)[i] != (a + b)[j] {
      if i < |a| && j >= |a| {
        assert (a + b)[i] in a && (a + b)[j] == b[j - |a|];
      }
    }
  }

  /** The traversal yields each word once. */
  lemma {:induction false} TraverseDistinct(nodes: seq<TrieNode>, n: nat, prefix: string)
    requires Tree(nodes) && Keyed(nodes) && n < |nodes|
    ensures Distinct(Traverse(nodes, n, prefix))
    decreases |nodes| - n, 1
  {
    BranchesDistinct(nodes, n, prefix, |nodes[n].children|);
    BranchesWords(nodes, n, prefix, |nodes[n].children|, prefix);
    DistinctConcat(if nodes[n].isEnd then [prefix] else [], Branches(nodes, n, prefix, |nodes[n].children|));
  }

  /** The words below the first `i` children are each yielded once. */
  lemma {:induction false} BranchesDistinct(nodes: seq<TrieNode>, n: nat, prefix: string, i: nat)
    requires Tree(nodes) && Keyed(nodes) && n < |nodes| && i <= |nodes[n].children|
    ensures Distinct(Branches(nodes, n, prefix, i))
    decreases |nodes| - n, 0, i
  {
    if i > 0 {
      var es := nodes[n].children;
      var (c, y) := es[i - 1];
      BranchesDistinct(nodes, n, prefix, i - 1);
      TraverseDistinct(nodes, y, prefix + [c]);
      forall x | x in Branches(nodes, n, prefix, i - 1) ensures x !in Traverse(nodes, y, prefix + [c]) {
        BranchesWords(nodes, n, prefix, i - 1, x);
        TraverseWords(nodes, y, prefix + [c], x);
        ChildOfEntry(es, i - 1);
        assert (prefix + [c])[|prefix|] == c;
      }
      DistinctConcat(Branches(nodes, n, prefix, i - 1), Traverse(nodes, y, prefix + [c]));
    }
  }

  /** Where `prefix` leads, the traversal from there yields exactly the
      stored words that start with `prefix`; where it leads nowhere, no
      stored word starts with it. */
  lemma PrefixWords(nodes: seq<TrieNode>, prefix: string, x: string)
    requires Tree(nodes) && Keyed(nodes) && |nodes| > 0
    ensures Reach(nodes, 0, prefix).None? ==> !(IsWord(nodes, x) && prefix <= x)
    ensures Reach(nodes, 0, prefix).Some? ==>
              (x in Traverse(nodes, Reach(nodes, 0, prefix).value, prefix) <==> IsWord(nodes, x) && prefix <= x)
  {
    if Reach(nodes, 0, prefix).Some? {
      TraverseWords(nodes, Reach(nodes, 0, prefix).value, prefix, x);
    }
    if prefix <= x {
      assert x == prefix + x[|prefix|..];
      ReachConcat(nodes, 0, prefix, x[|prefix|..]);
    }
  }

  /** The whole traversal from the root yields every stored word, once. */
  lemma AllWords(nodes: seq<TrieNode>)
    requires Tree(nodes) && Keyed(nodes) && |nodes| > 0
    ensures forall u :: u in Traverse(nodes, 0, []) <==> IsWord(nodes, u)
    ensures Distinct(Traverse(nodes, 0, []))
  {
    forall u ensures u in Traverse(nodes, 0, []) <==> IsWord(nodes, u) {
      TraverseWords(nodes, 0, [], u);
      assert u[0..] == u;
    }
    TraverseDistinct(nodes, 0, []);
  }

  /** The first `i + 1` characters are the first `i` and then `w[i]`. */
  lemma PrefixSnoc(w: string, i: nat)
    requires i < |w|
    ensures w[..i + 1] == w[..i] + [w[i]]
  {
  }

  /** One step of a walk: from the node `w[..i]` reaches, the next character
      leads to the child filed under it, and a missing child means `w` leads
      nowhere. */
  lemma ReachStep(nodes: seq<TrieNode>, w: string, i: nat, current: nat)
    requires Closed(nodes) && |nodes| > 0 && i < |w| && current < |nodes|
    requires Reach(nodes, 0, w[..i]) == Some(current)
    ensures Reach(nodes, 0, w[..i + 1]) == Child(nodes[current].children, w[i])
    ensures Child(nodes[current].children, w[i]).None? ==> Reach(nodes, 0, w).None?
  {
    PrefixSnoc(w, i);
    ReachConcat(nodes, 0, w[..i], [w[i]]);
    assert w == w[..i + 1] + w[i + 1..];
    ReachConcat(nodes, 0, w[..i + 1], w[i + 1..]);
  }

  /** The walk of `Insert` for a trimmed, non-empty word: from the root,
      follow the child filed under each character, creating it when it is
      missing, then mark the node reached.  Exactly one word is added, and
      a word already stored leaves the arena as it was. */
  method InsertWord(nodes: seq<TrieNode>, ghost spelling: seq<string>, w: string)
    returns (grown: seq<TrieNode>, ghost spelling': seq<string>)
    requires Shaped(nodes, spelling) && w != []
    ensures Shaped(grown, spelling')
    ensures forall u :: IsWord(grown, u) <==> IsWord(nodes, u) || u == w
    ensures IsWord(nodes, w) ==> grown == nodes && spelling' == spelling
  {
    grown, spelling' := nodes, spelling;
    var current: nat := 0;
    WalkStart(nodes, spelling, w);
    for i := 0 to |w|
      invariant Walked(nodes, spelling, grown, spelling', current, w, i)
    {
      var next := Child(grown[current].children, w[i]);
      if next.None? {
        WalkCreate(nodes, spelling, grown, spelling', current, w, i);
        var m := |grown|;
        grown := AddChild(grown, current, w[i]);
        spelling' := spelling' + [spelling'[current] + [w[i]]];
        current := m;
      } else {
        WalkFollow(nodes, spelling, grown, spelling', current, w, i);
        current := next.value;
      }
    }
    WalkDone(nodes, spelling, grown, spelling', current, w);
    MarkWord(nodes, spelling, grown, spelling', current, w);
    grown := grown[current := grown[current].(isEnd := true)];
  }

  class Trie {
    /** The arena; `nodes[0]` is `_root`. */
    var nodes: seq<TrieNode>
    /** The string each node's path spells. */
    ghost var spelling: seq<string>

    ghost predicate Valid()
      reads this
    {
      Shaped(nodes, spelling)
    }

    /** `new Trie()`: the root alone, so no word is stored. */
    constructor ()
      ensures Valid()
      ensures forall u :: !IsWord(nodes, u)
    {
      nodes := [TrieNode([], false)];
      spelling := [[]];
      new;
      assert Reach(nodes, 0, spelling[0]) == Some(0);
    }

    /** `Insert(word)`: a null word throws `ArgumentNullException`; the word
        is trimmed, and a word that trims to nothing changes nothing.
        Otherwise the trimmed word is the one word added, and inserting a
        stored word again leaves the trie as it was. */
    method Insert(word: Option<string>) returns (r: Outcome)
      requires Valid()
      modifies this
      ensures Valid()
      ensures word.None? ==> r == Throw(ArgumentNull) && unchanged(this)
      ensures word.Some? && Trim(word.value) == [] ==> r == Pass && unchanged(this)
      ensures word.Some? && Trim(word.value) != [] ==>
                r == Pass && forall u :: IsWord(nodes, u) <==> old(IsWord(nodes, u)) || u == Trim(word.value)
      ensures word.Some? && old(IsWord(nodes, Trim(word.value))) ==> unchanged(this)
    {
      if word.None? {
        return Throw(ArgumentNull);
      }
      var w := Trim(word.value);
      if |w| == 0 {
        EmptyIsNoWord(nodes, spelling);
        return Pass;
      }
      nodes, spelling := InsertWord(nodes, spelling, w);
      r := Pass;
    }

    /** `Search(word)`: a null word throws `ArgumentNullException`;
        otherwise the answer is whether the word is stored.  The word is not
        trimmed, and the empty string is never found. */
    method Search(word: Option<string>) returns (r: Result<bool>)
      requires Valid()
      ensures word.None? ==> r == Fail(ArgumentNull)
      ensures word.Some? ==> r == Ok(IsWord(nodes, word.value))
      ensures word == Some([]) ==> r == Ok(false)
    {
      if word.None? {
        return Fail(ArgumentNull);
      }
      var w := word.value;
      var current: nat := 0;
      for i := 0 to |w|
        invariant current < |nodes| && Reach(nodes, 0, w[..i]) == Some(current)
      {
        var next := Child(nodes[current].children, w[i]);
        ReachStep(nodes, w, i, current);
        if next.None? {
          return Ok(false);
        }
        current := next.value;
      }
      assert w[..|w|] == w;
      EmptyIsNoWord(nodes, spelling);
      r := Ok(nodes[current].isEnd);
    }

    /** `QueryWords(prefix)`: a null prefix throws `ArgumentNullException`; a
        prefix that is not a path gives the empty list; otherwise the words
        collected below the prefix's node.  Either way the list holds
        exactly the stored words that start with the prefix, each once. */
    method QueryWords(prefix: Option<string>) returns (r: Result<seq<string>>)
      requires Valid()
      ensures prefix.None? ==> r == Fail(ArgumentNull)
      ensures prefix.Some? ==> r.Ok?
      ensures prefix.Some? ==>
                var p := prefix.value;
                r.value == if Reach(nodes, 0, p).Some? then Traverse(nodes, Reach(nodes, 0, p).value, p) else []
      ensures prefix.Some? ==> forall x :: x in r.value <==> IsWord(nodes, x) && prefix.value <= x
      ensures prefix.Some? ==> Distinct(r.value)
    {
      if prefix.None? {
        return Fail(ArgumentNull);
      }
      var p := prefix.value;
      var current: nat := 0;
      for i := 0 to |p|
        invariant current < |nodes| && Reach(nodes, 0, p[..i]) == Some(current)
      {
        var next := Child(nodes[current].children, p[i]);
        ReachStep(nodes, p, i, current);
        if next.None? {
          forall x ensures !(IsWord(nodes, x) && p <= x) {
            PrefixWords(nodes, p, x);
          }
          return Ok([]);
        }
        current := next.value;
      }
      assert p[..|p|] == p;
      var results := CollectWords(nodes, current, p, []);
      forall x ensures x in results <==> IsWord(nodes, x) && p <= x {
        PrefixWords(nodes, p, x);
      }
      TraverseDistinct(nodes, current, p);
      r := Ok(results);
    }

    /** `GetEnumerator()`, that is `Traverse(_root, "")`: every stored word,
        each once. */
    function Enumerate(): (words: seq<string>)
      requires Valid()
      reads this
      ensures forall u :: u in words <==> IsWord(nodes, u)
      ensures Distinct(words)
    {
      AllWords(nodes);
      Traverse(nodes, 0, [])
    }

    /** `CollectWords(node, prefix, results)`: appends to `results` the words
        the traversal from `node` with `prefix` yields, in the same order. */
    static method CollectWords(nodes: seq<TrieNode>, node: nat, prefix: string, results: seq<string>)
      returns (collected: seq<string>)
      requires Tree(nodes) && node < |nodes|
      ensures collected == results + Traverse(nodes, node, prefix)
      decreases |nodes| - node
    {
      collected := results;
      if nodes[node].isEnd {
        collected := collected + [prefix];
      }
      var es := nodes[node].children;
      for i := 0 to |es|
        invariant collected == results + (if nodes[node].isEnd then [prefix] else []) + Branches(nodes, node, prefix, i)
      {
        var (key, child) := es[i];
        collected := CollectWords(nodes, child, prefix + [key], collected);
      }
    }
  }
}
