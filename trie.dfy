/**
 * Prefix tree over the letters 'a'..'z' (10_DataStructures/07_Trie/TrieImplementation.cpp).
 *
 * Every `TrieNode` owns an array of 26 child pointers and a `terminal` flag. The nodes are
 * kept in a sequence indexed by node number (node 0 is the root), and a child pointer is
 * `Some(index)` or `None`; `make_unique` appends a fresh node. The ghost fields record, for
 * each node, the word spelled on the way to it from the root and its parent node.
 */
module TrieImpl {
  import opened Wrappers

  const AlphabetSize := 26

  predicate IsLower(ch: char)
  {
    'a' <= ch <= 'z'
  }

  /** The child slot of a letter, `ch - 'a'`. */
  function ChildIndex(ch: char): (i: nat)
    requires IsLower(ch)
    ensures i < AlphabetSize && Letter(i) == ch
  {
    (ch as int) - ('a' as int)
  }

  /** The letter of a child slot. */
  function Letter(i: nat): (ch: char)
    requires i < AlphabetSize
    ensures IsLower(ch)
  {
    (('a' as int) + i) as char
  }

  /** The letters of `w` that `insert` follows: everything outside 'a'..'z' is skipped. */
  function Filter(w: string): (f: string)
    ensures forall j :: 0 <= j < |f| ==> IsLower(f[j])
  {
    if w == [] then []
    else Filter(w[..|w| - 1]) + (if IsLower(w[|w| - 1]) then [w[|w| - 1]] else [])
  }

  /** A word made only of letters is its own filtered form. */
  lemma {:induction false} FilterLetters(w: string)
    requires forall j :: 0 <= j < |w| ==> IsLower(w[j])
    ensures Filter(w) == w
  {
    if w != [] {
      FilterLetters(w[..|w| - 1]);
    }
  }

  /** Filtering twice is filtering once, so inserting `w` and inserting `Filter(w)` agree. */
  lemma FilterIdempotent(w: string)
    ensures Filter(Filter(w)) == Filter(w)
  {
    FilterLetters(Filter(w));
  }

  /** `TrieNode`: 26 child slots and the end-of-word flag. */
  datatype TrieNode = TrieNode(children: seq<Option<nat>>, terminal: bool)

  function EmptyNode(): (t: TrieNode)
    ensures |t.children| == AlphabetSize && !t.terminal
    ensures forall c :: 0 <= c < AlphabetSize ==> t.children[c] == None
  {
    TrieNode(seq(AlphabetSize, _ => None), false)
  }

  /** The words spelled by the terminal nodes. */
  ghost function WordsOf(nodes: seq<TrieNode>, paths: seq<string>): set<string>
    requires |paths| == |nodes|
  {
    set q | 0 <= q < |nodes| && nodes[q].terminal :: paths[q]
  }

  /** Every stored word is made of letters. */
  ghost predicate AllLetters(paths: seq<string>)
  {
    forall q :: 0 <= q < |paths| ==> forall j :: 0 <= j < |paths[q]| ==> IsLower(paths[q][j])
  }

  /** A new word made of a stored word and one more letter keeps every word made of letters. */
  lemma LettersGrow(paths: seq<string>, node: nat, c: char)
    requires node < |paths| && AllLetters(paths) && IsLower(c)
    ensures AllLetters(paths + [paths[node] + [c]])
  {
    var p := paths + [paths[node] + [c]];
    forall q | 0 <= q < |p| ensures forall j :: 0 <= j < |p[q]| ==> IsLower(p[q][j]) {
      if q < |paths| {
        assert p[q] == paths[q];
      }
    }
  }

  /** Appending a non-terminal node, flags elsewhere unchanged, adds no word. */
  lemma WordsGrow(nodes: seq<TrieNode>, paths: seq<string>, nodes': seq<TrieNode>, paths': seq<string>)
    requires |paths| == |nodes| && |nodes'| == |nodes| + 1 && |paths'| == |paths| + 1
    requires paths'[..|paths|] == paths && !nodes'[|nodes|].terminal
    requires forall q :: 0 <= q < |nodes| ==> nodes'[q].terminal == nodes[q].terminal
    ensures WordsOf(nodes', paths') == WordsOf(nodes, paths)
  {
    forall w | w in WordsOf(nodes', paths') ensures w in WordsOf(nodes, paths) {
      var q :| 0 <= q < |nodes'| && nodes'[q].terminal && paths'[q] == w;
      assert q < |nodes| && nodes[q].terminal && paths'[q] == paths[q];
    }
    forall w | w in WordsOf(nodes, paths) ensures w in WordsOf(nodes', paths') {
      var q :| 0 <= q < |nodes| && nodes[q].terminal && paths[q] == w;
      assert nodes'[q].terminal && paths'[q] == paths[q];
    }
  }

  /** Setting one node's flag, the others unchanged, adds exactly that node's word. */
  lemma WordsMark(nodes: seq<TrieNode>, paths: seq<string>, nodes': seq<TrieNode>, node: nat)
    requires |paths| == |nodes| == |nodes'| && node < |nodes| && nodes'[node].terminal
    requires forall q :: 0 <= q < |nodes| && q != node ==> nodes'[q].terminal == nodes[q].terminal
    ensures WordsOf(nodes', paths) == WordsOf(nodes, paths) + {paths[node]}
  {
    forall w | w in WordsOf(nodes', paths) ensures w in WordsOf(nodes, paths) + {paths[node]} {
      var q :| 0 <= q < |nodes| && nodes'[q].terminal && paths[q] == w;
      if q != node {
        assert nodes[q].terminal;
      }
    }
    forall w | w in WordsOf(nodes, paths) + {paths[node]} ensures w in WordsOf(nodes', paths) {
      if w in WordsOf(nodes, paths) {
        var q :| 0 <= q < |nodes| && nodes[q].terminal && paths[q] == w;
        assert nodes'[q].terminal;
      }
    }
  }

  class Trie {
    var nodes: seq<TrieNode>
    ghost var paths: seq<string>
    ghost var parent: seq<nat>

    /**
     * The root is node 0 and spells the empty word; a child edge for letter `c` leads to a
     * node spelling its parent's word plus `c`; every other node is reached by exactly the
     * edge its recorded parent holds for its last letter.
     */
    ghost predicate Valid()
      reads this
    {
      |nodes| >= 1 && |paths| == |nodes| && |parent| == |nodes| && paths[0] == [] &&
      (forall q :: 0 <= q < |nodes| ==> |nodes[q].children| == AlphabetSize) &&
      AllLetters(paths) &&
      (forall q, c :: 0 <= q < |nodes| && 0 <= c < AlphabetSize && nodes[q].children[c].Some? ==>
         EdgeOk(q, c)) &&
      (forall q :: 0 < q < |nodes| ==> ParentOk(q))
    }

    ghost predicate EdgeOk(q: nat, c: nat)
      reads this
      requires q < |nodes| && q < |paths| && c < AlphabetSize && c < |nodes[q].children|
      requires nodes[q].children[c].Some?
    {
      var child := nodes[q].children[c].value;
      child < |nodes| && child < |paths| && paths[child] == paths[q] + [Letter(c)]
    }

    ghost predicate ParentOk(q: nat)
      reads this
      requires q < |nodes| && |paths| == |nodes| && |parent| == |nodes|
      requires forall p :: 0 <= p < |nodes| ==> |nodes[p].children| == AlphabetSize
      requires forall j :: 0 <= j < |paths[q]| ==> IsLower(paths[q][j])
    {
      var p := parent[q];
      p < |nodes| && |paths[q]| > 0 &&
      paths[q] == paths[p] + [paths[q][|paths[q]| - 1]] &&
      nodes[p].children[ChildIndex(paths[q][|paths[q]| - 1])] == Some(q)
    }

    /** The abstract value: the words marked terminal. */
    ghost function Words(): set<string>
      reads this
      requires Valid()
    {
      WordsOf(nodes, paths)
    }

    /** Only the root spells the empty word. */
    lemma RootOnlyEmpty(q: nat)
      requires Valid() && q < |nodes|
      ensures q == 0 <==> paths[q] == []
    {
      if q != 0 {
        assert ParentOk(q);
      }
    }

    /** Two nodes that spell the same word are the same node. */
    lemma {:induction false} PathsInjective(p: nat, q: nat)
      requires Valid() && p < |nodes| && q < |nodes| && paths[p] == paths[q]
      ensures p == q
      decreases |paths[p]|
    {
      RootOnlyEmpty(p);
      RootOnlyEmpty(q);
      if p != 0 && q != 0 {
        assert ParentOk(p) && ParentOk(q);
        assert paths[parent[p]] == paths[p][..|paths[p]| - 1];
        assert paths[parent[q]] == paths[q][..|paths[q]| - 1];
        PathsInjective(parent[p], parent[q]);
      }
    }

    /** Every prefix of a node's word is spelled by some node. */
    lemma {:induction false} PrefixNode(q: nat, j: nat) returns (a: nat)
      requires Valid() && q < |nodes| && j <= |paths[q]|
      ensures a < |nodes| && paths[a] == paths[q][..j]
      decreases |paths[q]|
    {
      if j == |paths[q]| {
        a := q;
      } else {
        assert ParentOk(q);
        assert paths[q][..j] == paths[parent[q]][..j];
        a := PrefixNode(parent[q], j);
      }
    }

    /** Every stored word consists of letters only. */
    lemma WordsAreLetters(w: string)
      requires Valid() && w in Words()
      ensures forall j :: 0 <= j < |w| ==> IsLower(w[j])
    {
    }

    constructor ()
      ensures Valid() && Words() == {}
    {
      nodes := [EmptyNode()];
      paths := [[]];
      parent := [0];
    }

    /**
     * `insert(word)`: walks from the root over the letters of `word`, creating missing
     * children, and marks the last node terminal; it adds exactly the filtered word.
     */
    method Insert(word: string)
      requires Valid()
      modifies this
      ensures Valid()
      ensures Words() == old(Words()) + {Filter(word)}
    {
      var node: nat := 0;
      for i := 0 to |word|
        invariant Valid() && node < |nodes| && paths[node] == Filter(word[..i])
        invariant Words() == old(Words())
      {
        assert word[..i + 1][..i] == word[..i];
        var ch := word[i];
        if !IsLower(ch) {
          continue;
        }
        var idx := ChildIndex(ch);
        if nodes[node].children[idx].None? {
          AddChild(node, idx);
        }
        assert EdgeOk(node, idx);
        node := nodes[node].children[idx].value;
      }
      assert word[..|word|] == word;
      MarkTerminal(node);
    }

    /** `node->terminal = true`: adds the word the node spells. */
    method MarkTerminal(node: nat)
      requires Valid() && node < |nodes|
      modifies this
      ensures Valid() && Words() == old(Words()) + {old(paths[node])}
    {
      var t := nodes[node].(terminal := true);
      nodes := nodes[node := t];
      assert forall q :: 0 < q < |nodes| ==> ParentOk(q) by {
        forall q | 0 < q < |nodes| ensures ParentOk(q) {
          assert old(ParentOk(q));
        }
      }
      assert forall q, c :: 0 <= q < |nodes| && 0 <= c < AlphabetSize && nodes[q].children[c].Some? ==>
        EdgeOk(q, c) by {
        forall q, c | 0 <= q < |nodes| && 0 <= c < AlphabetSize && nodes[q].children[c].Some?
          ensures EdgeOk(q, c)
        {
          assert old(EdgeOk(q, c));
        }
      }
      WordsMark(old(nodes), paths, nodes, node);
    }

    /** `node->children[idx] = make_unique<TrieNode>()`: a fresh, empty, non-terminal child. */
    method AddChild(node: nat, idx: nat)
      requires Valid() && node < |nodes| && idx < AlphabetSize && nodes[node].children[idx].None?
      modifies this
      ensures Valid() && |nodes| == old(|nodes|) + 1 && Words() == old(Words())
      ensures nodes[node].children[idx] == Some(old(|nodes|))
      ensures paths[..old(|paths|)] == old(paths)
    {
      var child := |nodes|;
      var t := nodes[node].(children := nodes[node].children[idx := Some(child)]);
      nodes := nodes[node := t] + [EmptyNode()];
      paths := paths + [paths[node] + [Letter(idx)]];
      parent := parent + [node];
      LettersGrow(old(paths), node, Letter(idx));
      assert forall q :: 0 < q < |nodes| ==> ParentOk(q) by {
        forall q | 0 < q < |nodes| ensures ParentOk(q) {
          if q < child {
            assert old(ParentOk(q));
          } else {
            var w := paths[q];
            assert w[..|w| - 1] == paths[node];
            assert w[|w| - 1] == Letter(idx);
          }
        }
      }
      assert forall q, c :: 0 <= q < |nodes| && 0 <= c < AlphabetSize && nodes[q].children[c].Some? ==>
        EdgeOk(q, c) by {
        forall q, c | 0 <= q < |nodes| && 0 <= c < AlphabetSize && nodes[q].children[c].Some?
          ensures EdgeOk(q, c)
        {
          if q == child {
            assert false;
          } else if q != node || c != idx {
            assert old(EdgeOk(q, c));
          }
        }
      }
      WordsGrow(old(nodes), old(paths), nodes, paths);
    }

    /**
     * `contains(word)`: follows the child edges for the letters of `word`; a character
     * outside 'a'..'z' or a missing child gives false; otherwise the final node's flag.
     */
    method Contains(word: string) returns (found: bool)
      requires Valid()
      ensures found <==> word in Words()
      ensures (exists j :: 0 <= j < |word| && !IsLower(word[j])) ==> !found
    {
      var node: nat := 0;
      for i := 0 to |word|
        invariant node < |nodes| && paths[node] == word[..i]
      {
        var ch := word[i];
        if !IsLower(ch) {
          if word in Words() {
            WordsAreLetters(word);
          }
          return false;
        }
        var idx := ChildIndex(ch);
        if nodes[node].children[idx].None? {
          if word in Words() {
            var q :| 0 <= q < |nodes| && nodes[q].terminal && paths[q] == word;
            var a := PrefixNode(q, i + 1);
            assert ParentOk(a);
            assert paths[a][..i] == word[..i];
            PathsInjective(parent[a], node);
          }
          return false;
        }
        assert EdgeOk(node, idx);
        assert word[..i + 1] == word[..i] + [ch];
        node := nodes[node].children[idx].value;
      }
      assert word[..|word|] == word;
      found := nodes[node].terminal;
      if !found && word in Words() {
        var q :| 0 <= q < |nodes| && nodes[q].terminal && paths[q] == word;
        PathsInjective(q, node);
      }
      if found {
        WordsAreLetters(word);
      }
    }
  }

  /** `main`: "hello" and "help" share the prefix "hel", which is not itself a word. */
  method Example() returns (hasHello: bool, hasHel: bool)
    ensures hasHello && !hasHel
  {
    var t := new Trie();
    t.Insert("hello");
    t.Insert("help");
    FilterLetters("hello");
    FilterLetters("help");
    assert t.Words() == {"hello", "help"};
    hasHello := t.Contains("hello");
    hasHel := t.Contains("hel");
  }
}
