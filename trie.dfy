/** The prefix-tree dictionary (Trie.java). The tree lives on the heap as
    `Node` objects; the ghost map `nodeAt` names each node by the path of
    letters that leads to it from the root, and `contents` is the
    dictionary the tree stores: word -> number of times it was added. */
module Tries {
  import opened Alphabet
  import opened Ordering
  import opened Nodes

  /** How many times `w` occurs in a word -> count map (0 when absent). */
  function CountOf(m: map<string, nat>, w: string): nat
  {
    if w in m then m[w] else 0
  }

  /** The dictionary after one more occurrence of `w`; the empty word is
      never stored. */
  function Bumped(m: map<string, nat>, w: string): map<string, nat>
  {
    if w == [] then m else m[w := CountOf(m, w) + 1]
  }

  /** The dictionary after adding the words of `ws` in order. */
  function BumpAll(m: map<string, nat>, ws: seq<string>): map<string, nat>
    decreases ws
  {
    if ws == [] then m else BumpAll(Bumped(m, ws[0]), ws[1..])
  }

  /** Every entry of a dictionary map has a positive count. */
  predicate Positive(m: map<string, nat>)
  {
    forall w | w in m :: m[w] > 0
  }

  /** After adding `ws`, a word's count is its old count plus its number of
      occurrences in `ws`, whatever the order of `ws`. */
  lemma {:induction false} BumpAllCounts(m: map<string, nat>, ws: seq<string>)
    requires Positive(m)
    ensures Positive(BumpAll(m, ws))
    ensures forall w :: CountOf(BumpAll(m, ws), w) == CountOf(m, w) + (if w == [] then 0 else multiset(ws)[w])
    decreases ws
  {
    if ws != [] {
      BumpAllCounts(Bumped(m, ws[0]), ws[1..]);
      assert ws == [ws[0]] + ws[1..];
      assert multiset(ws) == multiset{ws[0]} + multiset(ws[1..]);
    }
  }

  /** Adding the same multiset of words, in any order, gives the same
      dictionary. */
  lemma SameBagSameContents(m: map<string, nat>, ws1: seq<string>, ws2: seq<string>)
    requires Positive(m) && multiset(ws1) == multiset(ws2)
    ensures BumpAll(m, ws1) == BumpAll(m, ws2)
  {
    BumpAllCounts(m, ws1);
    BumpAllCounts(m, ws2);
    var r1, r2 := BumpAll(m, ws1), BumpAll(m, ws2);
    forall w
      ensures w in r1 <==> w in r2
    {
      assert CountOf(r1, w) == CountOf(r2, w);
    }
    forall w | w in r1
      ensures r1[w] == r2[w]
    {
      assert CountOf(r1, w) == CountOf(r2, w);
    }
  }

  /** The non-empty prefixes of `w`: the paths whose nodes `Add(w)` needs. */
  function Prefixes(w: string): set<string>
  {
    if w == [] then {} else Prefixes(w[..|w| - 1]) + {w}
  }

  /** Every non-empty string that `w` starts with is one of its prefixes ... */
  lemma {:induction false} PrefixIn(w: string, s: string)
    requires s != [] && s <= w
    ensures s in Prefixes(w)
  {
    if s != w {
      PrefixIn(w[..|w| - 1], s);
    }
  }

  /** ... and every prefix is a non-empty string that `w` starts with. */
  lemma {:induction false} PrefixOf(w: string, s: string)
    requires s in Prefixes(w)
    ensures s != [] && s <= w
  {
    if s != w {
      PrefixOf(w[..|w| - 1], s);
    }
  }

  /** A word of length n has n non-empty prefixes. */
  lemma {:induction false} PrefixesCount(w: string)
    ensures |Prefixes(w)| == |w|
  {
    if w != [] {
      PrefixesCount(w[..|w| - 1]);
      if w in Prefixes(w[..|w| - 1]) {
        PrefixOf(w[..|w| - 1], w);
      }
    }
  }

  /** The non-empty prefixes of all words of `ws`. */
  function AllPrefixes(ws: seq<string>): set<string>
  {
    if ws == [] then {} else Prefixes(ws[0]) + AllPrefixes(ws[1..])
  }

  lemma {:induction false} InAllPrefixes(ws: seq<string>, w: string, s: string)
    requires w in ws && 0 < |s| && s <= w
    ensures s in AllPrefixes(ws)
  {
    if w != ws[0] {
      assert ws == [ws[0]] + ws[1..];
      assert w in ws[1..];
      InAllPrefixes(ws[1..], w, s);
    } else {
      PrefixIn(w, s);
    }
  }

  lemma {:induction false} FromAllPrefixes(ws: seq<string>, s: string) returns (w: string)
    requires s in AllPrefixes(ws)
    ensures w in ws && 0 < |s| && s <= w
  {
    if s in Prefixes(ws[0]) {
      w := ws[0];
      PrefixOf(w, s);
    } else {
      w := FromAllPrefixes(ws[1..], s);
      assert ws == [ws[0]] + ws[1..];
    }
  }

  /** The paths the words of `ws` need do not depend on their order. */
  lemma SameBagSamePaths(ws1: seq<string>, ws2: seq<string>)
    requires multiset(ws1) == multiset(ws2)
    ensures AllPrefixes(ws1) == AllPrefixes(ws2)
  {
    forall s | s in AllPrefixes(ws1)
      ensures s in AllPrefixes(ws2)
    {
      var w := FromAllPrefixes(ws1, s);
      assert w in multiset(ws1);
      InAllPrefixes(ws2, w, s);
    }
    forall s | s in AllPrefixes(ws2)
      ensures s in AllPrefixes(ws1)
    {
      var w := FromAllPrefixes(ws2, s);
      assert w in multiset(ws2);
      InAllPrefixes(ws1, w, s);
    }
  }

  /** Every element is a string of letters. */
  ghost predicate AllWords(keys: set<string>)
  {
    forall s | s in keys :: IsWord(s)
  }

  /** Every prefix of an element is an element. */
  ghost predicate Closed(keys: set<string>)
  {
    forall q, k | q in keys && 0 <= k <= |q| :: q[..k] in keys
  }

  /** The keys at or below `p`. */
  ghost function Below(keys: set<string>, p: string): set<string>
  {
    set q | q in keys && p <= q
  }

  /** Going one letter down from a key leaves at least that key behind. */
  lemma BelowShrinks(keys: set<string>, p: string, c: char)
    requires p in keys
    ensures |Below(keys, p + [c])| < |Below(keys, p)|
  {
    assert Below(keys, p + [c]) < Below(keys, p) by {
      forall q | q in Below(keys, p + [c])
        ensures q in Below(keys, p)
      {
        assert q[..|p|] == (p + [c])[..|p|] == p;
      }
      assert p in Below(keys, p) - Below(keys, p + [c]);
    }
    var small, big := Below(keys, p + [c]), Below(keys, p);
    assert big == small + (big - small);
  }

  /** `s` is `p` itself or lies below one of the first `i` children of `p`:
      what the listing of `p` has covered after `i` turns of its loop. */
  predicate Before(p: string, s: string, i: nat)
  {
    p <= s && (s == p || (s[|p|] as int) < ('a' as int) + i)
  }

  /** `words` holds exactly the words of `m` that are `p` or lie below one
      of the first `i` children of `p`. */
  ghost predicate Covers(m: map<string, nat>, p: string, i: nat, words: seq<string>)
  {
    forall s :: s in words <==> s in m && Before(p, s, i)
  }

  /** Before the loop only the word at `p` itself can be listed. */
  lemma BranchStart(m: map<string, nat>, p: string, words: seq<string>)
    requires AllWords(m.Keys) && words == (if p in m then [p] else [])
    ensures Sorted(words)
    ensures Covers(m, p, 0, words)
  {
    forall s | s in m && p <= s && s != p
      ensures (s[|p|] as int) >= ('a' as int)
    {
      assert IsLetter(s[|p|]);
    }
  }

  /** The listing of child `i` extends the listing so far and keeps it sorted. */
  lemma BranchAppend(m: map<string, nat>, p: string, i: nat, words: seq<string>, ws: seq<string>)
    requires i < 26 && AllWords(m.Keys)
    requires Sorted(words) && Sorted(ws)
    requires Covers(m, p, i, words)
    requires forall s :: s in ws <==> s in m && p + [Letter(i)] <= s
    ensures Sorted(words + ws)
    ensures Covers(m, p, i + 1, words + ws)
  {
    var next := p + [Letter(i)];
    forall a, b | a in words && b in ws
      ensures Less(a, b)
    {
      assert b[..|p|] == next[..|p|] == p;
      if a == p {
        PrefixLess(a, b);
      } else {
        assert a[..|p|] == p;
        assert b[|p|] == next[|p|];
        LessAtFirstDifference(a, b, |p|);
      }
    }
    SortedAppend(words, ws);
    forall s | s in m && Before(p, s, i + 1)
      ensures s in words || s in ws
    {
      if s != p && (s[|p|] as int) == ('a' as int) + i {
        assert s[..|p| + 1] == s[..|p|] + [s[|p|]];
        assert s[|p|] == Letter(i);
      }
    }
    forall s | s in ws
      ensures Before(p, s, i + 1)
    {
      assert s[..|next|] == next;
      assert s[..|p|] == p;
      assert s[|p|] == next[|p|];
    }
  }

  /** A missing child `i` adds nothing: no stored word lies below it. */
  lemma BranchEmpty(m: map<string, nat>, keys: set<string>, p: string, i: nat, words: seq<string>)
    requires i < 26 && AllWords(m.Keys) && m.Keys <= keys && Closed(keys)
    requires p + [Letter(i)] !in keys
    requires Covers(m, p, i, words)
    ensures Covers(m, p, i + 1, words)
  {
    forall s | s in m && p <= s && s != p
      ensures (s[|p|] as int) != ('a' as int) + i
    {
      assert s[..|p| + 1] == p + [s[|p|]];
      assert s[..|p| + 1] in keys;
    }
  }

  /** After all 26 children, the listing holds every stored word below `p`. */
  lemma BranchEnd(m: map<string, nat>, p: string, words: seq<string>)
    requires AllWords(m.Keys)
    requires Covers(m, p, 26, words)
    ensures forall s :: s in words <==> s in m && p <= s
  {
    forall s | s in m && p <= s && s != p
      ensures (s[|p|] as int) < ('a' as int) + 26
    {
      assert IsLetter(s[|p|]);
    }
  }

  /** Two trees, given by their positions and stored words, agree at and
      below `p`: the same positions and the same count at each. */
  ghost predicate Agree(k1: set<string>, c1: map<string, nat>, k2: set<string>, c2: map<string, nat>, p: string)
  {
    forall s | p <= s :: (s in k1 <==> s in k2) && CountOf(c1, s) == CountOf(c2, s)
  }

  /** The trees agree below each of the first `i` children of `p`. */
  ghost predicate AgreeChildren(k1: set<string>, c1: map<string, nat>, k2: set<string>, c2: map<string, nat>, p: string, i: nat)
  {
    forall j | 0 <= j < i && j < 26 :: Agree(k1, c1, k2, c2, p + [Letter(j)])
  }

  lemma AgreeChildrenStep(k1: set<string>, c1: map<string, nat>, k2: set<string>, c2: map<string, nat>, p: string, i: nat)
    requires i < 26 && AgreeChildren(k1, c1, k2, c2, p, i) && Agree(k1, c1, k2, c2, p + [Letter(i)])
    ensures AgreeChildren(k1, c1, k2, c2, p, i + 1)
  {
  }

  /** Agreement below `p` is agreement at `p` and below each of its 26
      children. */
  lemma AgreeSplit(k1: set<string>, c1: map<string, nat>, k2: set<string>, c2: map<string, nat>, p: string)
    requires AllWords(k1) && AllWords(k2) && c1.Keys <= k1 && c2.Keys <= k2
    ensures Agree(k1, c1, k2, c2, p) <==>
      && (p in k1 <==> p in k2)
      && CountOf(c1, p) == CountOf(c2, p)
      && AgreeChildren(k1, c1, k2, c2, p, 26)
  {
    if && (p in k1 <==> p in k2)
       && CountOf(c1, p) == CountOf(c2, p)
       && AgreeChildren(k1, c1, k2, c2, p, 26)
    {
      forall s | p <= s
        ensures (s in k1 <==> s in k2) && CountOf(c1, s) == CountOf(c2, s)
      {
        if s != p && (s in k1 || s in k2) {
          var j := Index(s[|p|]);
          assert s[..|p| + 1] == p + [Letter(j)];
          assert Agree(k1, c1, k2, c2, p + [Letter(j)]);
        }
      }
    }
    if Agree(k1, c1, k2, c2, p) {
      forall j | 0 <= j < 26
        ensures Agree(k1, c1, k2, c2, p + [Letter(j)])
      {
        forall s | p + [Letter(j)] <= s
          ensures (s in k1 <==> s in k2) && CountOf(c1, s) == CountOf(c2, s)
        {
          assert p <= s;
        }
      }
    }
  }

  /** Two trees that both lack position `p` agree below it. */
  lemma AgreeAbsent(k1: set<string>, c1: map<string, nat>, k2: set<string>, c2: map<string, nat>, p: string)
    requires Closed(k1) && Closed(k2) && c1.Keys <= k1 && c2.Keys <= k2
    requires p !in k1 && p !in k2
    ensures Agree(k1, c1, k2, c2, p)
  {
    forall s | p <= s
      ensures s !in k1 && s !in k2
    {
      assert s[..|p|] == p;
    }
  }

  /** Two trees of which only one has position `p` do not agree below it. */
  lemma AgreeAt(k1: set<string>, c1: map<string, nat>, k2: set<string>, c2: map<string, nat>, p: string)
    requires (p in k1) != (p in k2)
    ensures !Agree(k1, c1, k2, c2, p)
  {
    assert p <= p;
  }

  /** Agreement from the root is equality of the positions and of the
      stored words with their counts. */
  lemma AgreeEverywhere(k1: set<string>, c1: map<string, nat>, k2: set<string>, c2: map<string, nat>)
    requires Positive(c1) && Positive(c2)
    ensures Agree(k1, c1, k2, c2, "") <==> k1 == k2 && c1 == c2
  {
    if Agree(k1, c1, k2, c2, "") {
      forall s
        ensures (s in k1 <==> s in k2) && CountOf(c1, s) == CountOf(c2, s)
      {
        assert "" <= s;
      }
      assert k1 == k2;
      forall s
        ensures s in c1 <==> s in c2
      {
        assert CountOf(c1, s) == CountOf(c2, s);
      }
      forall s | s in c1
        ensures c1[s] == c2[s]
      {
        assert CountOf(c1, s) == CountOf(c2, s);
      }
      assert c1 == c2;
    }
  }

  class Trie {
    const root: Node
    var wordCount: nat
    var nodeCount: nat
    /** The node at the end of each path from the root. */
    ghost var nodeAt: map<string, Node>
    /** The stored words with their (positive) counts. */
    ghost var contents: map<string, nat>
    /** The position of each node and of each child array of the tree. */
    ghost var pathOf: map<object, string>

    /** The objects of the tree: the trie itself, its nodes and their child
        arrays. */
    ghost function Repr(): set<object>
      reads this
    {
      {this} + pathOf.Keys
    }

    ghost predicate Valid()
      reads this, Repr()
    {
      && "" in nodeAt && nodeAt[""] == root
      // no node and no child array is shared between two positions:
      // `pathOf` maps each back to its position
      && (forall p {:trigger nodeAt[p]} | p in nodeAt ::
            && IsWord(p) && nodeAt[p].children.Length == 26
            && nodeAt[p] in pathOf && pathOf[nodeAt[p]] == p
            && nodeAt[p].children in pathOf && pathOf[nodeAt[p].children] == p)
      // every prefix of a position is a position ...
      && (forall p, k | p in nodeAt && 0 <= k <= |p| :: p[..k] in nodeAt)
      // ... and child slot i of the node at p holds the node at p + letter i
      && (forall p, i {:trigger nodeAt[p].children[i]} | p in nodeAt && 0 <= i < 26 ::
            nodeAt[p].children[i] == (if p + [Letter(i)] in nodeAt then nodeAt[p + [Letter(i)]] else null))
      && root.count == 0
      // the stored words are the positions with a positive count
      && (forall p {:trigger contents[p]} | p in contents :: p in nodeAt)
      && (forall p {:trigger nodeAt[p].count} | p in nodeAt ::
            if p in contents then contents[p] == nodeAt[p].count > 0 else nodeAt[p].count == 0)
      && nodeCount == |nodeAt|
      && wordCount == |contents|
    }

    constructor ()
      ensures Valid() && fresh(Repr())
      ensures nodeAt.Keys == {""} && contents == map[]
      ensures nodeCount == 1 && wordCount == 0
      ensures root.count == 0 && forall i | 0 <= i < 26 :: root.children[i] == null
    {
      root := new Node();
      wordCount := 0;
      nodeCount := 1;
      nodeAt := map["" := root];
      contents := map[];
      new;
      pathOf := map[root := "", root.children := ""];
    }

    /** Walking the letters of `p` down from the root: the walk reaches a
        node exactly when `p` is a position, and that node is `nodeAt[p]`;
        so the positions are exactly the nodes reachable from the root. */
    ghost function Walk(p: string): (n: Node?)
      requires Valid() && IsWord(p)
      reads this, Repr()
      ensures n != null <==> p in nodeAt
      ensures n != null ==> n == nodeAt[p]
      decreases |p|
    {
      if p == [] then root
      else
        var parent := Walk(p[..|p| - 1]);
        if parent == null then
          assert p !in nodeAt;
          null
        else
          assert p[..|p| - 1] + [Letter(Index(p[|p| - 1]))] == p;
          parent.children[Index(p[|p| - 1])]
    }

    /** Distinct positions hold distinct nodes, so `nodeCount` is also the
        number of distinct nodes in the tree. */
    lemma NodeCountIsNodes()
      requires Valid()
      ensures nodeCount == |nodeAt.Values|
    {
      DistinctValues(nodeAt);
    }

    static lemma {:induction false} DistinctValues(m: map<string, Node>)
      requires forall p, q | p in m && q in m && p != q :: m[p] != m[q]
      ensures |m.Values| == |m|
      decreases |m|
    {
      if m != map[] {
        var k :| k in m;
        var rest := m - {k};
        forall v | v in m.Values - {m[k]}
          ensures v in rest.Values
        {
          var q :| q in m && m[q] == v;
          assert rest[q] == v;
        }
        forall v | v in rest.Values
          ensures v in m.Values - {m[k]}
        {
          var q :| q in rest && rest[q] == v;
          assert m[q] == v;
        }
        assert rest.Values == m.Values - {m[k]};
        assert m[k] in m.Values;
        DistinctValues(rest);
      }
    }

    /** Adds one occurrence of `word`, allocating the missing nodes on its
        path (Trie.add). */
    method Add(word: string)
      requires Valid() && IsWord(word)
      modifies Repr()
      ensures Valid() && fresh(Repr() - old(Repr()))
      ensures contents == Bumped(old(contents), word)
      ensures nodeAt.Keys == old(nodeAt.Keys) + Prefixes(word)
      ensures nodeCount == old(nodeCount) + |Prefixes(word) - old(nodeAt.Keys)| <= old(nodeCount) + |word|
      ensures wordCount == old(wordCount) + (if word != [] && word !in old(contents) then 1 else 0)
    {
      AddPath(word);
      KeysExact(old(nodeAt.Keys), nodeAt.Keys, word);
    }

    /** The loop of Trie.add. */
    method AddPath(word: string)
      requires Valid() && IsWord(word)
      modifies Repr()
      ensures Valid() && fresh(Repr() - old(Repr()))
      ensures contents == Bumped(old(contents), word)
      ensures old(nodeAt.Keys) <= nodeAt.Keys <= old(nodeAt.Keys) + Prefixes(word)
      ensures forall k | 0 <= k <= |word| :: word[..k] in nodeAt
      ensures wordCount == old(wordCount) + (if word != [] && word !in old(contents) then 1 else 0)
    {
      var currentNode := root;
      var i := 0;
      while i < |word|
        invariant 0 <= i <= |word|
        invariant Valid() && fresh(Repr() - old(Repr()))
        invariant word[..i] in nodeAt && currentNode == nodeAt[word[..i]]
        invariant old(nodeAt.Keys) <= nodeAt.Keys <= old(nodeAt.Keys) + Prefixes(word)
        invariant contents == if i == |word| then Bumped(old(contents), word) else old(contents)
        invariant wordCount == old(wordCount) + (if i == |word| && word != [] && word !in old(contents) then 1 else 0)
      {
        currentNode := Step(currentNode, word, i);
        i := i + 1;
      }
      assert word[..|word|] == word;
    }

    /** One turn of the loop in Trie.add: the child for letter `word[i]` of
        the node at `word[..i]`, created if missing; on the last letter its
        count goes up, and so does `wordCount` when the word is new. */
    method Step(node: Node, word: string, i: nat) returns (child: Node)
      requires Valid() && IsWord(word) && i < |word| && word[..i] in nodeAt && node == nodeAt[word[..i]]
      modifies Repr()
      ensures Valid() && fresh(Repr() - old(Repr()))
      ensures word[..i + 1] in nodeAt && child == nodeAt[word[..i + 1]]
      ensures nodeAt.Keys == old(nodeAt.Keys) + {word[..i + 1]} && word[..i + 1] in Prefixes(word)
      ensures contents == if i == |word| - 1 then Bumped(old(contents), word) else old(contents)
      ensures wordCount == old(wordCount) + (if i == |word| - 1 && word !in old(contents) then 1 else 0)
    {
      assert word[..i + 1] == word[..i] + [Letter(Index(word[i]))];
      PrefixIn(word, word[..i + 1]);
      child := Child(node, word[..i], Index(word[i]));
      if i == |word| - 1 {
        assert word[..i + 1] == word;
        CountWord(child, word);
      }
    }

    /** The child in slot `index` of the node at `p`, hung there first when
        the slot is empty. */
    method Child(node: Node, ghost p: string, index: nat) returns (child: Node)
      requires Valid() && p in nodeAt && node == nodeAt[p] && index < 26
      modifies this, node.children
      ensures Valid() && fresh(Repr() - old(Repr()))
      ensures p + [Letter(index)] in nodeAt && child == nodeAt[p + [Letter(index)]]
      ensures nodeAt.Keys == old(nodeAt.Keys) + {p + [Letter(index)]}
      ensures contents == old(contents) && wordCount == old(wordCount)
    {
      var kids := node.GetChildren();
      if kids[index] == null {
        var n := new Node();
        AddChild(node, p, index, n);
      }
      child := kids[index];
    }

    /** Once every prefix of the word is a position, the positions are the
        old ones plus the word's prefixes, and at most |word| are new. */
    static lemma KeysExact(start: set<string>, keys: set<string>, word: string)
      requires start <= keys <= start + Prefixes(word)
      requires forall k | 0 <= k <= |word| :: word[..k] in keys
      ensures keys == start + Prefixes(word)
      ensures |keys| == |start| + |Prefixes(word) - start| <= |start| + |word|
    {
      forall s | s in Prefixes(word)
        ensures s in keys
      {
        PrefixOf(word, s);
        assert s == word[..|s|];
      }
      assert keys == start + (Prefixes(word) - start);
      PrefixesCount(word);
      assert Prefixes(word) - start <= Prefixes(word);
    }

    /** Hangs a fresh node in child slot `index` of the node at `p`, one
        step of the walk in Trie.add. */
    method AddChild(node: Node, ghost p: string, index: nat, n: Node)
      requires Valid() && p in nodeAt && node == nodeAt[p] && index < 26
      requires p + [Letter(index)] !in nodeAt
      requires n !in Repr() && n.children !in Repr() && n.count == 0 && n.children.Length == 26
      requires forall j | 0 <= j < 26 :: n.children[j] == null
      modifies this, node.children
      ensures Valid() && Repr() == old(Repr()) + {n, n.children}
      ensures p + [Letter(index)] in nodeAt && nodeAt.Keys == old(nodeAt.Keys) + {p + [Letter(index)]}
      ensures nodeAt[p + [Letter(index)]] == n && node.children[index] == n
      ensures contents == old(contents) && wordCount == old(wordCount)
    {
      node.children[index] := n;
      nodeCount, nodeAt, pathOf :=
        nodeCount + 1, nodeAt[p + [Letter(index)] := n], pathOf[n := p + [Letter(index)]][n.children := p + [Letter(index)]];
      AttachKeepsValid(node, p, index, n);
      AttachGrows(p, index, n);
    }

    /** The invariant survives hanging the fresh node `n` below position `p`. */
    twostate lemma AttachKeepsValid(node: Node, new p: string, new index: nat, new n: Node)
      requires old(Valid()) && p in old(nodeAt) && node == old(nodeAt)[p] && index < 26
      requires p + [Letter(index)] !in old(nodeAt)
      requires n !in old(Repr()) && n.children !in old(Repr()) && n.children.Length == 26 && n.count == 0
      requires forall j | 0 <= j < 26 :: n.children[j] == null
      requires node.children[index] == n
      requires forall j | 0 <= j < node.children.Length && j != index :: node.children[j] == old(node.children[j])
      requires unchanged(old(Repr()) - {this, node.children})
      requires nodeAt == old(nodeAt)[p + [Letter(index)] := n]
      requires pathOf == old(pathOf)[n := p + [Letter(index)]][n.children := p + [Letter(index)]]
      requires nodeCount == old(nodeCount) + 1 && contents == old(contents) && wordCount == old(wordCount)
      ensures Valid()
    {
      var q := p + [Letter(index)];
      assert IsWord(q);
      forall k | 0 <= k <= |q|
        ensures q[..k] in nodeAt
      {
        if k <= |p| {
          assert q[..k] == p[..k];
        } else {
          assert q[..k] == q;
        }
      }
      AttachLinks(node, p, index, n);
      assert |nodeAt| == |old(nodeAt)| + 1;
    }

    /** After hanging `n`, every child slot still holds the node of its
        path, or null when there is none. */
    twostate lemma AttachLinks(node: Node, new p: string, new index: nat, new n: Node)
      requires old(Valid()) && p in old(nodeAt) && node == old(nodeAt)[p] && index < 26
      requires p + [Letter(index)] !in old(nodeAt)
      requires n !in old(Repr()) && n.children !in old(Repr()) && n.children.Length == 26 && n.count == 0
      requires forall j | 0 <= j < 26 :: n.children[j] == null
      requires node.children[index] == n
      requires forall j | 0 <= j < node.children.Length && j != index :: node.children[j] == old(node.children[j])
      requires unchanged(old(Repr()) - {this, node.children})
      requires nodeAt == old(nodeAt)[p + [Letter(index)] := n]
      ensures forall r, j {:trigger nodeAt[r].children[j]} | r in nodeAt && 0 <= j < 26 ::
        nodeAt[r].children[j] == (if r + [Letter(j)] in nodeAt then nodeAt[r + [Letter(j)]] else null)
    {
      var q := p + [Letter(index)];
      forall r, j | r in nodeAt && 0 <= j < 26
        ensures nodeAt[r].children[j] == (if r + [Letter(j)] in nodeAt then nodeAt[r + [Letter(j)]] else null)
      {
        if r == q {
          assert (r + [Letter(j)])[..|r|] == q;
          assert r + [Letter(j)] !in old(nodeAt);
        } else {
          assert old(nodeAt)[r] == nodeAt[r];
          if r + [Letter(j)] == q {
            assert r == (r + [Letter(j)])[..|r|] == p;
            assert Letter(j) == q[|p|] == Letter(index);
          } else if r == p {
            assert j != index;
          }
        }
      }
    }

    /** Hanging `n` adds one position and two objects to the tree. */
    twostate lemma AttachGrows(new p: string, new index: nat, new n: Node)
      requires index < 26
      requires nodeAt == old(nodeAt)[p + [Letter(index)] := n]
      requires pathOf == old(pathOf)[n := p + [Letter(index)]][n.children := p + [Letter(index)]]
      ensures Repr() == old(Repr()) + {n, n.children}
      ensures p + [Letter(index)] in nodeAt && nodeAt.Keys == old(nodeAt.Keys) + {p + [Letter(index)]}
    {
    }

    /** Counts one more occurrence of the word `w` at its node: the last step
        of Trie.add. */
    method CountWord(node: Node, ghost w: string)
      requires Valid() && w in nodeAt && node == nodeAt[w] && w != []
      modifies this, node
      ensures Valid() && Repr() == old(Repr()) && nodeAt == old(nodeAt)
      ensures contents == Bumped(old(contents), w)
      ensures wordCount == old(wordCount) + (if w in old(contents) then 0 else 1)
    {
      var v := node.GetValue();
      node.IncrementValue();
      // a word seen for the first time is one more distinct word
      wordCount, contents := wordCount + (if v == 0 then 1 else 0), contents[w := node.count];
      CountKeepsValid(w);
    }

    /** The invariant survives one more occurrence of `w` at its node. */
    twostate lemma CountKeepsValid(w: string)
      requires old(Valid()) && w in old(nodeAt) && w != []
      requires nodeAt == old(nodeAt) && pathOf == old(pathOf) && nodeCount == old(nodeCount)
      requires nodeAt[w].count == old(nodeAt[w].count) + 1
      requires unchanged(old(Repr()) - {this, nodeAt[w]})
      requires contents == old(contents)[w := nodeAt[w].count]
      requires wordCount == old(wordCount) + (if old(nodeAt[w].count) == 0 then 1 else 0)
      ensures Valid()
      ensures contents == Bumped(old(contents), w)
      ensures wordCount == old(wordCount) + (if w in old(contents) then 0 else 1)
    {
    }

    /** The path that `find` and `foundInTrie` end up probing: the word
        itself, except that for the empty word they read child slot 0 of
        the root, which is the position of "a". */
    static function Probed(word: string): (q: string)
      ensures q != [] && (word != [] ==> q == word)
    {
      if word == [] then "a" else word
    }

    /** The node of `Probed(word)` when a word is stored there, else null
        (Trie.find). The walk breaks off at the first missing child; for the
        empty word slot 0 of the root is dereferenced unchecked, which Java
        answers with a NullPointerException when nothing starts with 'a'. */
    method Find(word: string) returns (n: Node?)
      requires Valid() && IsWord(word)
      requires word == [] ==> "a" in nodeAt
      ensures Valid()
      ensures n == (if Probed(word) in contents then nodeAt[Probed(word)] else null)
      ensures n != null ==> n.count == contents[Probed(word)] > 0
    {
      var index := 0;
      var currentNode := root;
      var i := 0;
      while i < |word|
        invariant 0 <= i <= |word| && word[..i] in nodeAt
        invariant i < |word| ==> currentNode == nodeAt[word[..i]]
        invariant 0 < i == |word| ==> word[..i - 1] in nodeAt && currentNode == nodeAt[word[..i - 1]] && index == Index(word[i - 1])
        invariant i == 0 ==> currentNode == root && index == 0
      {
        index := Index(word[i]);
        var kids := currentNode.GetChildren();
        var child := kids[index];
        assert word[..i] + [Letter(index)] == word[..i + 1];
        if child == null {
          return null;
        }
        if i < |word| - 1 {
          currentNode := child;
        }
        i := i + 1;
      }
      if word != [] {
        assert word[..|word| - 1] + [Letter(index)] == word == word[..|word|];
      } else {
        assert [] + [Letter(index)] == "a";
      }
      var kids := currentNode.GetChildren();
      var last := kids[index];
      var v := last.GetValue();
      if v > 0 {
        return last;
      }
      return null;
    }

    /** Whether a word is stored at `Probed(word)` (Trie.foundInTrie): the
        same walk as Find, answering with a boolean. */
    method FoundInTrie(word: string) returns (found: bool)
      requires Valid() && IsWord(word)
      requires word == [] ==> "a" in nodeAt
      ensures Valid()
      ensures found <==> Probed(word) in contents
    {
      var index := 0;
      var currentNode := root;
      var i := 0;
      while i < |word|
        invariant 0 <= i <= |word| && word[..i] in nodeAt
        invariant i < |word| ==> currentNode == nodeAt[word[..i]]
        invariant 0 < i == |word| ==> word[..i - 1] in nodeAt && currentNode == nodeAt[word[..i - 1]] && index == Index(word[i - 1])
        invariant i == 0 ==> currentNode == root && index == 0
      {
        index := Index(word[i]);
        var kids := currentNode.GetChildren();
        var child := kids[index];
        assert word[..i] + [Letter(index)] == word[..i + 1];
        if child == null {
          return false;
        }
        if i < |word| - 1 {
          currentNode := child;
        }
        i := i + 1;
      }
      if word != [] {
        assert word[..|word| - 1] + [Letter(index)] == word == word[..|word|];
      } else {
        assert [] + [Letter(index)] == "a";
      }
      var kids := currentNode.GetChildren();
      var last := kids[index];
      var v := last.GetValue();
      if v > 0 {
        return true;
      }
      return false;
    }

    /** The number of distinct stored words. */
    method GetWordCount() returns (n: nat)
      requires Valid()
      ensures n == |contents|
    {
      n := wordCount;
    }

    /** The number of nodes, the root included. */
    method GetNodeCount() returns (n: nat)
      requires Valid()
      ensures n == |nodeAt|
    {
      n := nodeCount;
    }

    /** The stored words, each followed by a newline, in increasing order
        (Trie.toString). */
    method ToString() returns (s: string)
      requires Valid()
      ensures s == Lines(SortedListing(contents.Keys))
    {
      ghost var words;
      s, words := StringListGenerator(root, "", "");
      SortedUnique(words, SortedListing(contents.Keys));
    }

    /** The positions are strings of letters closed under prefixes, and
        the stored words are among them. */
    lemma Shape()
      requires Valid()
      ensures AllWords(nodeAt.Keys) && Closed(nodeAt.Keys)
      ensures AllWords(contents.Keys) && contents.Keys <= nodeAt.Keys && Positive(contents)
    {
      forall s | s in nodeAt.Keys
        ensures IsWord(s)
      {
        assert nodeAt[s] == nodeAt[s];
      }
      forall s | s in contents
        ensures contents[s] > 0
      {
        assert contents[s] == nodeAt[s].count;
      }
    }

    /** Depth-first listing below the node at `curWord`: the word ending here
        first, then the children by increasing letter. `curWord + [letter]`
        stands for the append / deleteCharAt pair on the shared builder. */
    method StringListGenerator(n: Node, curWord: string, output: string) returns (result: string, ghost words: seq<string>)
      requires Valid() && curWord in nodeAt && n == nodeAt[curWord]
      ensures result == output + Lines(words)
      ensures Sorted(words)
      ensures forall s :: s in words <==> s in contents && curWord <= s
      decreases |Below(nodeAt.Keys, curWord)|
    {
      Shape();
      result := output;
      words := [];
      var v := n.GetValue();
      assert v == nodeAt[curWord].count;
      if v > 0 {
        result := result + curWord + "\n";
        words := [curWord];
      }
      BranchStart(contents, curWord, words);
      var kids := n.GetChildren();
      var i := 0;
      while i < kids.Length
        invariant 0 <= i <= 26
        invariant result == output + Lines(words)
        invariant Sorted(words)
        invariant Covers(contents, curWord, i, words)
      {
        var child := kids[i];
        ghost var next := curWord + [Letter(i)];
        if child != null {
          BelowShrinks(nodeAt.Keys, curWord, Letter(i));
          var r, ws := StringListGenerator(child, curWord + [Letter(i)], result);
          BranchAppend(contents, curWord, i, words, ws);
          LinesExtend(output, words, ws);
          result, words := r, words + ws;
        } else {
          BranchEmpty(contents, nodeAt.Keys, curWord, i, words);
        }
        i := i + 1;
      }
      BranchEnd(contents, curWord, words);
    }

    /** Structural comparison of the subtrees at `n1` and `n2`, both at
        position `p` (Trie.treeDif): true exactly when the two trees have
        the same positions and counts at and below `p`. */
    method TreeDif(n1: Node, n2: Node, other: Trie, ghost p: string) returns (same: bool)
      requires Valid() && other.Valid()
      requires p in nodeAt && p in other.nodeAt && n1 == nodeAt[p] && n2 == other.nodeAt[p]
      ensures same <==> Agree(nodeAt.Keys, contents, other.nodeAt.Keys, other.contents, p)
      decreases |Below(nodeAt.Keys, p)|
    {
      ghost var k1, c1, k2, c2 := nodeAt.Keys, contents, other.nodeAt.Keys, other.contents;
      Shape();
      other.Shape();
      AgreeSplit(k1, c1, k2, c2, p);
      var v1 := n1.GetValue();
      var v2 := n2.GetValue();
      assert v1 == nodeAt[p].count && v2 == other.nodeAt[p].count;
      if v1 != v2 {
        return false;
      }
      var kids1 := n1.GetChildren();
      var kids2 := n2.GetChildren();
      var i := 0;
      while i < kids1.Length
        invariant 0 <= i <= 26
        invariant AgreeChildren(k1, c1, k2, c2, p, i)
      {
        var child1 := kids1[i];
        var child2 := kids2[i];
        ghost var next := p + [Letter(i)];
        if child1 != null && child2 != null {
          BelowShrinks(k1, p, Letter(i));
          var rec := TreeDif(child1, child2, other, next);
          if !rec {
            return false;
          }
        } else if child1 == null && child2 == null {
          AgreeAbsent(k1, c1, k2, c2, next);
        } else {
          AgreeAt(k1, c1, k2, c2, next);
          return false;
        }
        AgreeChildrenStep(k1, c1, k2, c2, p, i);
        i := i + 1;
      }
      return true;
    }

    /** Two tries are equal when their counters agree and `TreeDif` finds no
        difference (Trie.equals): that is, exactly when they have the same
        positions and store the same words with the same counts. */
    method Equals(other: Trie) returns (eq: bool)
      requires Valid() && other.Valid()
      ensures eq <==> nodeAt.Keys == other.nodeAt.Keys && contents == other.contents
    {
      if nodeCount != other.nodeCount {
        return false;
      }
      if wordCount != other.wordCount {
        return false;
      }
      eq := TreeDif(root, other.root, other, "");
      Shape();
      other.Shape();
      AgreeEverywhere(nodeAt.Keys, contents, other.nodeAt.Keys, other.contents);
    }
  }
}
