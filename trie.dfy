/** The trie component. Nodes live in an arena: a node's position in `nodes`
    stands for the random id the component gives it, and a child link is the
    child's position. Two ghost sequences run alongside the arena: the word
    each node spells from the root, and each node's parent. */
module Trie {
  import opened Text

  /** A trie node: the character on the link into it (`""` for the root),
      its children by character, and whether a word ends here. */
  datatype TrieNode = TrieNode(ch: string, children: map<char, nat>, isEndOfWord: bool)

  /** The character a node reached by `u` carries. */
  function Letter(u: string): string {
    if u == [] then "" else [u[|u| - 1]]
  }

  /** The prefixes of `w`, `w` and `""` included. */
  ghost function PrefixesOf(w: string): set<string> {
    if w == [] then {[]} else PrefixesOf(w[..|w| - 1]) + {w}
  }

  /** Node `j`, not the root, hangs below `ps[j]` under the last character of its word. */
  ghost predicate ParentLink(ns: seq<TrieNode>, ws: seq<string>, ps: seq<nat>, j: nat)
    requires |ws| == |ns| && |ps| == |ns| && j < |ns|
  {
    && ps[j] < |ns|
    && ws[j] != []
    && ws[j][|ws[j]| - 1] in ns[ps[j]].children
    && ns[ps[j]].children[ws[j][|ws[j]| - 1]] == j
  }

  /** Each node carries the last character of its word. */
  ghost predicate Labelled(ns: seq<TrieNode>, ws: seq<string>)
    requires |ws| == |ns|
  {
    forall i :: 0 <= i < |ns| ==> ns[i].ch == Letter(ws[i])
  }

  /** Following the link for `c` out of a node spelling `u` reaches the node spelling `u + [c]`. */
  ghost predicate ChildLinks(ns: seq<TrieNode>, ws: seq<string>)
    requires |ws| == |ns|
  {
    forall i, c :: 0 <= i < |ns| && c in ns[i].children ==>
      ns[i].children[c] < |ns| && ws[ns[i].children[c]] == ws[i] + [c]
  }

  /** Every node but the root is reached from its parent. */
  ghost predicate ParentLinks(ns: seq<TrieNode>, ws: seq<string>, ps: seq<nat>)
    requires |ws| == |ns| && |ps| == |ns|
  {
    forall j :: 0 < j < |ns| ==> ParentLink(ns, ws, ps, j)
  }

  /** No two nodes spell the same word. */
  ghost predicate Distinct(ws: seq<string>) {
    forall i, j :: 0 <= i < |ws| && 0 <= j < |ws| && ws[i] == ws[j] ==> i == j
  }

  /** The arena is a trie whose node 0 is the root, spelling `""`. */
  ghost predicate Linked(ns: seq<TrieNode>, ws: seq<string>, ps: seq<nat>) {
    && |ns| >= 1 && |ws| == |ns| && |ps| == |ns|
    && ws[0] == []
    && Labelled(ns, ws)
    && ChildLinks(ns, ws)
    && ParentLinks(ns, ws, ps)
    && Distinct(ws)
  }

  /** The words stored: those of the nodes marked as an end of word. */
  ghost function WordSet(ns: seq<TrieNode>, ws: seq<string>): set<string>
    requires |ws| == |ns|
  {
    set i | 0 <= i < |ns| && ns[i].isEndOfWord :: ws[i]
  }

  /** The words a walk from the root can follow to the end. */
  ghost function PrefixSet(ws: seq<string>): set<string> {
    set i | 0 <= i < |ws| :: ws[i]
  }

  /** The arena after `node.children[c] = new TrieNode(c)`. */
  function WithChild(ns: seq<TrieNode>, i: nat, c: char): (r: seq<TrieNode>)
    requires i < |ns|
    ensures |r| == |ns| + 1
  {
    ns[i := ns[i].(children := ns[i].children[c := |ns|])] + [TrieNode([c], map[], false)]
  }

  /** The arena after `node.isEndOfWord = true`. */
  function WithEnd(ns: seq<TrieNode>, i: nat): (r: seq<TrieNode>)
    requires i < |ns|
    ensures |r| == |ns|
  {
    ns[i := ns[i].(isEndOfWord := true)]
  }

  /** A new child keeps the arena a trie, stores no new word and makes its
      one new word walkable. */
  lemma {:induction false} WithChildLinked(ns: seq<TrieNode>, ws: seq<string>, ps: seq<nat>, i: nat, c: char)
    requires Linked(ns, ws, ps) && i < |ns| && c !in ns[i].children
    ensures Linked(WithChild(ns, i, c), ws + [ws[i] + [c]], ps + [i])
    ensures WordSet(WithChild(ns, i, c), ws + [ws[i] + [c]]) == WordSet(ns, ws)
    ensures PrefixSet(ws + [ws[i] + [c]]) == PrefixSet(ws) + {ws[i] + [c]}
  {
    WithChildLabelled(ns, ws, i, c);
    WithChildChildLinks(ns, ws, i, c);
    WithChildParentLinks(ns, ws, ps, i, c);
    Spelled(ns, ws, ps, i, c);
    SnocDistinct(ws, ws[i] + [c]);
    WithChildWords(ns, ws, i, c);
    SnocPrefixes(ws, ws[i] + [c]);
  }

  lemma WithChildLabelled(ns: seq<TrieNode>, ws: seq<string>, i: nat, c: char)
    requires |ws| == |ns| && i < |ns| && Labelled(ns, ws)
    ensures Labelled(WithChild(ns, i, c), ws + [ws[i] + [c]])
  {
  }

  lemma WithChildChildLinks(ns: seq<TrieNode>, ws: seq<string>, i: nat, c: char)
    requires |ws| == |ns| && i < |ns| && ChildLinks(ns, ws)
    ensures ChildLinks(WithChild(ns, i, c), ws + [ws[i] + [c]])
  {
  }

  lemma WithChildParentLinks(ns: seq<TrieNode>, ws: seq<string>, ps: seq<nat>, i: nat, c: char)
    requires |ws| == |ns| && |ps| == |ns| && i < |ns| && ParentLinks(ns, ws, ps)
    requires c !in ns[i].children
    ensures ParentLinks(WithChild(ns, i, c), ws + [ws[i] + [c]], ps + [i])
  {
    var ns', ws', ps' := WithChild(ns, i, c), ws + [ws[i] + [c]], ps + [i];
    forall j | 0 < j < |ns'|
      ensures ParentLink(ns', ws', ps', j)
    {
      if j < |ns| {
        assert ParentLink(ns, ws, ps, j);
      }
    }
  }

  /** Appending a word no node spells keeps the words distinct. */
  lemma SnocDistinct(ws: seq<string>, w: string)
    requires Distinct(ws) && w !in PrefixSet(ws)
    ensures Distinct(ws + [w])
  {
    forall a | 0 <= a < |ws|
      ensures ws[a] != w
    {
      assert ws[a] in PrefixSet(ws);
    }
  }

  lemma WithChildWords(ns: seq<TrieNode>, ws: seq<string>, i: nat, c: char)
    requires |ws| == |ns| && i < |ns|
    ensures WordSet(WithChild(ns, i, c), ws + [ws[i] + [c]]) == WordSet(ns, ws)
  {
    var ns', ws' := WithChild(ns, i, c), ws + [ws[i] + [c]];
    forall w | w in WordSet(ns', ws') ensures w in WordSet(ns, ws) {
      var j :| 0 <= j < |ns'| && ns'[j].isEndOfWord && ws'[j] == w;
      assert j < |ns|;
    }
    forall w | w in WordSet(ns, ws) ensures w in WordSet(ns', ws') {
      var j :| 0 <= j < |ns| && ns[j].isEndOfWord && ws[j] == w;
      assert ns'[j].isEndOfWord && ws'[j] == w;
    }
  }

  lemma SnocPrefixes(ws: seq<string>, w: string)
    ensures PrefixSet(ws + [w]) == PrefixSet(ws) + {w}
  {
    var ws' := ws + [w];
    forall u | u in PrefixSet(ws') ensures u in PrefixSet(ws) + {w} {
      var j :| 0 <= j < |ws'| && ws'[j] == u;
      if j < |ws| {
        assert ws[j] == u;
      }
    }
    forall u | u in PrefixSet(ws) ensures u in PrefixSet(ws') {
      var j :| 0 <= j < |ws| && ws[j] == u;
      assert ws'[j] == u;
    }
    assert ws'[|ws|] == w;
  }

  /** Marking a node keeps the arena a trie and stores its word. */
  lemma {:induction false} WithEndLinked(ns: seq<TrieNode>, ws: seq<string>, ps: seq<nat>, i: nat)
    requires Linked(ns, ws, ps) && i < |ns|
    ensures Linked(WithEnd(ns, i), ws, ps)
    ensures WordSet(WithEnd(ns, i), ws) == WordSet(ns, ws) + {ws[i]}
  {
    WithEndLabelled(ns, ws, i);
    WithEndChildLinks(ns, ws, i);
    WithEndParentLinks(ns, ws, ps, i);
    WithEndWords(ns, ws, i);
  }

  lemma WithEndLabelled(ns: seq<TrieNode>, ws: seq<string>, i: nat)
    requires |ws| == |ns| && i < |ns| && Labelled(ns, ws)
    ensures Labelled(WithEnd(ns, i), ws)
  {
  }

  lemma WithEndChildLinks(ns: seq<TrieNode>, ws: seq<string>, i: nat)
    requires |ws| == |ns| && i < |ns| && ChildLinks(ns, ws)
    ensures ChildLinks(WithEnd(ns, i), ws)
  {
  }

  lemma WithEndParentLinks(ns: seq<TrieNode>, ws: seq<string>, ps: seq<nat>, i: nat)
    requires |ws| == |ns| && |ps| == |ns| && i < |ns| && ParentLinks(ns, ws, ps)
    ensures ParentLinks(WithEnd(ns, i), ws, ps)
  {
    forall j | 0 < j < |ns|
      ensures ParentLink(WithEnd(ns, i), ws, ps, j)
    {
      assert ParentLink(ns, ws, ps, j);
    }
  }

  lemma WithEndWords(ns: seq<TrieNode>, ws: seq<string>, i: nat)
    requires |ws| == |ns| && i < |ns|
    ensures WordSet(WithEnd(ns, i), ws) == WordSet(ns, ws) + {ws[i]}
  {
    var ns' := WithEnd(ns, i);
    forall w | w in WordSet(ns', ws) ensures w in WordSet(ns, ws) + {ws[i]} {
      var j :| 0 <= j < |ns'| && ns'[j].isEndOfWord && ws[j] == w;
      if j != i {
        assert ns[j].isEndOfWord;
      }
    }
    forall w | w in WordSet(ns, ws) ensures w in WordSet(ns', ws) {
      var j :| 0 <= j < |ns| && ns[j].isEndOfWord && ws[j] == w;
      assert ns'[j].isEndOfWord;
    }
    assert ns'[i].isEndOfWord;
  }

  /** A node spelling `u + [c]` hangs below the node spelling `u`, so
      when that node has no child for `c` no node spells `u + [c]`. */
  lemma {:induction false} Spelled(ns: seq<TrieNode>, ws: seq<string>, ps: seq<nat>, i: nat, c: char)
    requires Linked(ns, ws, ps) && i < |ns|
    ensures ws[i] + [c] in PrefixSet(ws) ==> c in ns[i].children
  {
    if ws[i] + [c] in PrefixSet(ws) {
      var j :| 0 <= j < |ws| && ws[j] == ws[i] + [c];
      assert j != 0 by {
        assert ws[j] != [];
      }
      assert ParentLink(ns, ws, ps, j);
      var p := ps[j];
      assert ws[j][|ws[j]| - 1] == c;
      assert ws[p] + [c] == ws[i] + [c];
      assert ws[p] == (ws[p] + [c])[..|ws[p]|];
      assert ws[p] == ws[i];
    }
  }

  /** Every prefix of a walkable word is walkable. */
  lemma {:induction false} PrefixClosed(ns: seq<TrieNode>, ws: seq<string>, ps: seq<nat>, j: nat, k: nat)
    requires Linked(ns, ws, ps) && j < |ns| && k <= |ws[j]|
    ensures ws[j][..k] in PrefixSet(ws)
    decreases |ws[j]|
  {
    if k == |ws[j]| {
      assert ws[j][..k] == ws[j];
    } else {
      assert j != 0;
      assert ParentLink(ns, ws, ps, j);
      var p := ps[j];
      var c := ws[j][|ws[j]| - 1];
      assert ws[j] == ws[p] + [c];
      assert ws[j][..k] == ws[p][..k];
      PrefixClosed(ns, ws, ps, p, k);
    }
  }

  /** The prefix one longer is the prefix plus the next character. */
  lemma TakeSnoc(w: string, i: nat)
    requires i < |w|
    ensures w[..i + 1] == w[..i] + [w[i]]
  {
  }

  /** Growing a prefix by one character adds exactly that prefix. */
  lemma PrefixesOfSnoc(w: string, i: nat)
    requires i < |w|
    ensures PrefixesOf(w[..i + 1]) == PrefixesOf(w[..i]) + {w[..i + 1]}
  {
    assert w[..i + 1][..i] == w[..i];
  }

  class Trie {
    var nodes: seq<TrieNode>
    ghost var wordOf: seq<string>
    ghost var parentOf: seq<nat>

    ghost predicate Valid()
      reads this
    {
      Linked(nodes, wordOf, parentOf)
    }

    /** The words the trie holds. */
    ghost function Words(): set<string>
      reads this
      requires Valid()
    {
      WordSet(nodes, wordOf)
    }

    /** The words a walk from the root can follow to the end. */
    ghost function Prefixes(): set<string>
      reads this
    {
      PrefixSet(wordOf)
    }

    /** `new Trie()`: only the root, holding no word. */
    constructor ()
      ensures Valid()
      ensures Words() == {} && Prefixes() == {[]}
      ensures |nodes| == 1
    {
      nodes := [TrieNode("", map[], false)];
      wordOf := [[]];
      parentOf := [0];
      new;
      assert Prefixes() == {[]} by {
        assert wordOf[0] == [];
      }
    }

    /** `insert(word)`: walk the word from the root, creating each missing
        child, and mark the last node as an end of word. Nodes already there
        keep their identity and their word. */
    method Insert(word: string)
      requires Valid()
      modifies this
      ensures Valid()
      ensures Words() == old(Words()) + {word}
      ensures Prefixes() == old(Prefixes()) + PrefixesOf(word)
      ensures old(wordOf) <= wordOf
      ensures old(word in Prefixes()) ==> |nodes| == old(|nodes|)
      ensures old(word in Words()) ==> nodes == old(nodes)
    {
      var node := Walk(word);
      MarkEnd(node, word);
    }

    /** `insert`'s loop: the node spelling `word`, creating the missing ones. */
    method Walk(word: string) returns (node: nat)
      requires Valid()
      modifies this
      ensures Valid()
      ensures node < |nodes| && wordOf[node] == word
      ensures Words() == old(Words())
      ensures Prefixes() == old(Prefixes()) + PrefixesOf(word)
      ensures old(wordOf) <= wordOf
      ensures old(word in Prefixes()) ==> nodes == old(nodes) && wordOf == old(wordOf)
    {
      node := 0;
      var i := 0;
      assert word[..0] == [];
      while i < |word|
        invariant Valid()
        invariant 0 <= i <= |word|
        invariant node < |nodes| && wordOf[node] == word[..i]
        invariant Prefixes() == old(Prefixes()) + PrefixesOf(word[..i])
        invariant old(wordOf) <= wordOf
        invariant Words() == old(Words())
        invariant old(word in Prefixes()) ==> nodes == old(nodes) && wordOf == old(wordOf)
      {
        var c := word[i];
        TakeSnoc(word, i);
        PrefixWalkable(word, i + 1);
        node := Child(node, c);
        PrefixesOfSnoc(word, i);
        i := i + 1;
      }
      assert word[..i] == word;
    }

    /** `node.isEndOfWord = true` on the node spelling `word`. */
    method MarkEnd(node: nat, ghost word: string)
      requires Valid() && node < |nodes| && wordOf[node] == word
      modifies this
      ensures Valid()
      ensures Words() == old(Words()) + {word}
      ensures wordOf == old(wordOf) && |nodes| == old(|nodes|)
      ensures old(word in Words()) ==> nodes == old(nodes)
    {
      WithEndLinked(nodes, wordOf, parentOf, node);
      if !nodes[node].isEndOfWord {
        nodes := WithEnd(nodes, node);
      }
    }

    /** `node.children[c] = new TrieNode(c)`, with the new node's word and parent. */
    method AddChild(node: nat, c: char)
      requires Valid() && node < |nodes| && c !in nodes[node].children
      modifies this
      ensures Valid()
      ensures nodes == WithChild(old(nodes), node, c)
      ensures wordOf == old(wordOf) + [old(wordOf[node]) + [c]]
      ensures parentOf == old(parentOf) + [node]
      ensures Words() == old(Words())
      ensures Prefixes() == old(Prefixes()) + {old(wordOf[node]) + [c]}
    {
      WithChildLinked(nodes, wordOf, parentOf, node, c);
      nodes, wordOf, parentOf := WithChild(nodes, node, c), wordOf + [wordOf[node] + [c]], parentOf + [node];
    }

    /** One round of `insert`'s loop: the child of `node` for `c`, created
        when it is missing. */
    method Child(node: nat, c: char) returns (next: nat)
      requires Valid() && node < |nodes|
      modifies this
      ensures Valid()
      ensures next < |nodes| && wordOf[next] == old(wordOf[node]) + [c]
      ensures Prefixes() == old(Prefixes()) + {old(wordOf[node]) + [c]}
      ensures old(wordOf) <= wordOf
      ensures Words() == old(Words())
      ensures old(wordOf[node]) + [c] in old(Prefixes()) ==> nodes == old(nodes) && wordOf == old(wordOf)
    {
      Spelled(nodes, wordOf, parentOf, node, c);
      if c !in nodes[node].children {
        AddChild(node, c);
      }
      next := nodes[node].children[c];
      assert wordOf[next] in Prefixes();
    }

    /** Every prefix of a walkable word is walkable. */
    lemma PrefixWalkable(word: string, k: nat)
      requires Valid()
      ensures word in Prefixes() && k <= |word| ==> word[..k] in Prefixes()
    {
      if word in Prefixes() && k <= |word| {
        var j :| 0 <= j < |wordOf| && wordOf[j] == word;
        PrefixClosed(nodes, wordOf, parentOf, j, k);
      }
    }

    /** Each stored word is walkable, and so is each of its prefixes. */
    lemma {:induction false} StoredPrefixes(w: string, k: nat)
      requires Valid()
      ensures w in Words() && k <= |w| ==> w[..k] in Prefixes()
    {
      if w in Words() && k <= |w| {
        var j :| 0 <= j < |nodes| && nodes[j].isEndOfWord && wordOf[j] == w;
        PrefixClosed(nodes, wordOf, parentOf, j, k);
      }
    }

    /** `search(word)`: walk the word from the root, collecting the id of
        each node passed; stop at the first missing child. The path is the
        run of nodes spelling the longest walkable prefix of `word`, and
        `found` says whether `word` is stored. */
    method Search(word: string) returns (found: bool, path: seq<nat>)
      requires Valid()
      ensures found <==> word in Words()
      ensures Spells(path, word)
      ensures |path| < |word| ==> word[..|path| + 1] !in Prefixes()
      ensures |path| == |word| <==> word in Prefixes()
    {
      var node: nat := 0;
      path := [];
      var i := 0;
      assert word[..0] == [];
      while i < |word|
        invariant 0 <= i <= |word| && |path| == i
        invariant node < |nodes| && wordOf[node] == word[..i]
        invariant Spells(path, word)
      {
        var c := word[i];
        TakeSnoc(word, i);
        if c !in nodes[node].children {
          MissingChild(word, i, node);
          return false, path;
        }
        node := nodes[node].children[c];
        SpellsSnoc(path, word, node);
        path := path + [node];
        i := i + 1;
      }
      assert word[..i] == word;
      NodeOfWord(node, word);
      found := nodes[node].isEndOfWord;
    }

    /** `path` is the run of nodes spelling the first `|path|` prefixes of
        `word`, one character longer at each step. */
    ghost predicate Spells(path: seq<nat>, word: string)
      reads this
      requires Valid()
    {
      && |path| <= |word|
      && forall j :: 0 <= j < |path| ==> path[j] < |nodes| && wordOf[path[j]] == word[..j + 1]
    }

    lemma SpellsSnoc(path: seq<nat>, word: string, node: nat)
      requires Valid() && Spells(path, word) && |path| < |word|
      requires node < |nodes| && wordOf[node] == word[..|path| + 1]
      ensures Spells(path + [node], word)
    {
    }

    /** A child missing along `word` means neither the rest of the walk nor
        `word` itself is in the trie. */
    lemma MissingChild(word: string, i: nat, node: nat)
      requires Valid() && i < |word| && node < |nodes| && wordOf[node] == word[..i]
      requires word[i] !in nodes[node].children
      ensures word[..i + 1] !in Prefixes()
      ensures word !in Prefixes() && word !in Words()
    {
      TakeSnoc(word, i);
      Spelled(nodes, wordOf, parentOf, node, word[i]);
      PrefixWalkable(word, i + 1);
      StoredPrefixes(word, |word|);
      assert word[..|word|] == word;
    }

    /** The node spelling `word` is marked exactly when `word` is stored. */
    lemma NodeOfWord(node: nat, word: string)
      requires Valid() && node < |nodes| && wordOf[node] == word
      ensures word in Prefixes()
      ensures nodes[node].isEndOfWord <==> word in Words()
    {
      if word in Words() {
        var j :| 0 <= j < |nodes| && nodes[j].isEndOfWord && wordOf[j] == word;
        assert j == node;
      }
    }
  }

  /** `handleInsert`: input made only of white space is ignored; anything
      else is lower-cased, but not trimmed, and inserted. */
  method HandleInsert(trie: Trie, insertWord: string)
    requires trie.Valid()
    modifies trie
    ensures trie.Valid()
    ensures IsBlank(insertWord) ==> trie.nodes == old(trie.nodes) && trie.wordOf == old(trie.wordOf)
    ensures trie.Words() == if IsBlank(insertWord) then old(trie.Words()) else old(trie.Words()) + {ToLower(insertWord)}
  {
    TrimIsEmptyIffBlank(insertWord);
    if Trim(insertWord) == "" {
      return;
    }
    trie.Insert(ToLower(insertWord));
  }

  /** `handleSearch`: the lower-cased input is searched as it is; the
      result and the path to highlight are what `search` reports. */
  method HandleSearch(trie: Trie, searchWord: string) returns (result: bool, highlightPath: seq<nat>)
    requires trie.Valid()
    ensures result <==> ToLower(searchWord) in trie.Words()
    ensures trie.Spells(highlightPath, ToLower(searchWord))
    ensures |highlightPath| == |searchWord| <==> ToLower(searchWord) in trie.Prefixes()
  {
    result, highlightPath := trie.Search(ToLower(searchWord));
  }

  /** The word just inserted is found, along a path as long as the word. */
  method InsertedIsFound(trie: Trie, word: string) returns (found: bool, path: seq<nat>)
    requires trie.Valid()
    modifies trie
    ensures found && |path| == |word|
  {
    trie.Insert(word);
    found, path := trie.Search(word);
    trie.StoredPrefixes(word, |word|);
    assert word[..|word|] == word;
  }

  /** A proper prefix of a stored word that was never stored itself is not
      found, yet the whole of it is walked. */
  method PrefixIsNotFound(trie: Trie, word: string, k: nat) returns (found: bool, path: seq<nat>)
    requires trie.Valid()
    requires word in trie.Words() && k <= |word| && word[..k] !in trie.Words()
    ensures !found && |path| == k
  {
    trie.StoredPrefixes(word, k);
    found, path := trie.Search(word[..k]);
  }
}
