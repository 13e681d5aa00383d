/**
 * The sensitive-word filter object: a trie of stored words (kept as a node
 * heap, see module Trie), the set of loaded words, and the three operations of
 * the source class: loading the word list, inserting one word into the trie,
 * and scanning a text.
 */
module WordFilter {

  import opened Options
  import opened Trie
  import opened Matching

  /** The non-empty entries of a loaded word list (empty `word` fields are skipped). */
  function NonEmptyWords(stored: seq<string>): set<string> {
    set w | w in stored && w != []
  }

  /**
   * What holds in `_add_to_trie` after the first `k` characters of `word` have
   * been walked from the trie `nodes0`/`index0`: the trie is still well formed,
   * `node` is the node of `word[..k]`, the stored words are unchanged, and no
   * node, edge or terminal flag was removed.
   */
  ghost predicate InsertedUpTo(nodes0: seq<TrieNode>, index0: map<string, nat>, word: string, k: nat,
                               nodes: seq<TrieNode>, index: map<string, nat>, node: nat)
  {
    && k <= |word|
    && InBounds(nodes0, index0)
    && WellFormed(nodes, index)
    && word[..k] in index && index[word[..k]] == node
    && TrieWords(nodes, index) == TrieWords(nodes0, index0)
    && Extends(nodes0, nodes)
  }

  /** An iteration of the `_add_to_trie` loop that creates the missing child keeps InsertedUpTo. */
  lemma InsertStepNewChild(nodes0: seq<TrieNode>, index0: map<string, nat>, word: string, k: nat,
                           nodes: seq<TrieNode>, index: map<string, nat>, node: nat)
    requires InsertedUpTo(nodes0, index0, word, k, nodes, index, node)
    requires k < |word| && word[k] !in nodes[node].children
    ensures InsertedUpTo(nodes0, index0, word, k + 1,
                         AddChild(nodes, node, word[k]), index[word[..k + 1] := |nodes|], |nodes|)
  {
    assert word[..k + 1] == word[..k] + [word[k]];
    AddChildKeepsWellFormed(nodes, index, word[..k], word[k]);
    ExtendsTransitive(nodes0, nodes, AddChild(nodes, node, word[k]));
  }

  /** An iteration of the `_add_to_trie` loop that follows an existing child keeps InsertedUpTo. */
  lemma InsertStepExistingChild(nodes0: seq<TrieNode>, index0: map<string, nat>, word: string, k: nat,
                                nodes: seq<TrieNode>, index: map<string, nat>, node: nat)
    requires InsertedUpTo(nodes0, index0, word, k, nodes, index, node)
    requires k < |word| && word[k] in nodes[node].children
    ensures InsertedUpTo(nodes0, index0, word, k + 1, nodes, index, nodes[node].children[word[k]])
  {
    assert word[..k + 1] == word[..k] + [word[k]];
    ChildLookup(nodes, index, word[..k], word[k]);
  }

  /** Marking the node reached at the end of `word` terminal completes the insertion. */
  lemma InsertFinish(nodes0: seq<TrieNode>, index0: map<string, nat>, word: string,
                     nodes: seq<TrieNode>, index: map<string, nat>, node: nat)
    requires InsertedUpTo(nodes0, index0, word, |word|, nodes, index, node)
    ensures node < |nodes|
    ensures WellFormed(MarkEnd(nodes, node), index)
    ensures Contains(MarkEnd(nodes, node), word)
    ensures TrieWords(MarkEnd(nodes, node), index) == TrieWords(nodes0, index0) + {word}
    ensures Extends(nodes0, MarkEnd(nodes, node))
  {
    assert word[..|word|] == word;
    MarkEndAddsWord(nodes, index, word);
    ExtendsTransitive(nodes0, nodes, MarkEnd(nodes, node));
    StoredIffContains(MarkEnd(nodes, node), index, word);
  }

  lemma NonEmptyWordsStep(stored: seq<string>, k: nat)
    requires k < |stored|
    ensures NonEmptyWords(stored[..k + 1]) ==
              NonEmptyWords(stored[..k]) + (if stored[k] != [] then {stored[k]} else {})
  {
    assert stored[..k + 1] == stored[..k] + [stored[k]];
  }

  /** When `t[i..j+1]` is not a trie path, no stored word starts at `i` with `j + 1 - i` characters or more. */
  lemma NoLongerWord(nodes: seq<TrieNode>, index: map<string, nat>, t: string, i: nat, j: nat)
    requires WellFormed(nodes, index)
    requires i <= j < |t|
    requires t[i..j + 1] !in index
    ensures forall m :: j + 1 - i <= m ==> !WordAt(TrieWords(nodes, index), t, i, m)
  {
    forall m | j + 1 - i <= m && WordAt(TrieWords(nodes, index), t, i, m)
      ensures false
    {
      assert t[i..j + 1] <= t[i..i + m];
      PrefixClosed(nodes, index, t[i..i + m], t[i..j + 1]);
    }
  }

  lemma SliceExtend(t: string, i: nat, j: nat)
    requires i <= j < |t|
    ensures t[i..j + 1] == t[i..j] + [t[j]]
  {
  }

  /** The walk of `check_text` from offset `i` follows the edge on `t[j]` to the node of `t[i..j + 1]`. */
  lemma SliceChild(nodes: seq<TrieNode>, index: map<string, nat>, t: string, i: nat, j: nat)
    requires WellFormed(nodes, index)
    requires i <= j < |t| && t[i..j] in index && t[j] in nodes[index[t[i..j]]].children
    ensures t[i..j + 1] in index && nodes[index[t[i..j]]].children[t[j]] == index[t[i..j + 1]]
  {
    SliceExtend(t, i, j);
    ChildLookup(nodes, index, t[i..j], t[j]);
  }

  /** A missing edge on `t[j]` means `t[i..j + 1]` is not a path of the tree. */
  lemma SliceNoChild(nodes: seq<TrieNode>, index: map<string, nat>, t: string, i: nat, j: nat)
    requires WellFormed(nodes, index)
    requires i <= j < |t| && t[i..j] in index && t[j] !in nodes[index[t[i..j]]].children
    ensures t[i..j + 1] !in index
  {
    SliceExtend(t, i, j);
    NoChild(nodes, index, t[i..j], t[j]);
  }

  class SensitiveWordFilter {
    /** The trie's nodes; node `Root` (id 0) is `self.root`. */
    var nodes: seq<TrieNode>
    /** `self.sensitive_words`: filled on load, never read by the scan. */
    var sensitiveWords: set<string>
    /** For every character path in the trie, the id of the node it leads to. */
    ghost var index: map<string, nat>

    ghost predicate Valid()
      reads this
    {
      WellFormed(nodes, index)
    }

    /** The words the trie stores: the root-to-terminal paths. */
    ghost function StoredWords(): set<string>
      reads this
      requires Valid()
    {
      TrieWords(nodes, index)
    }

    /** A filter with an empty trie and no loaded words. */
    constructor ()
      ensures Valid()
      ensures StoredWords() == {} && sensitiveWords == {}
      ensures nodes == [EmptyNode()]
    {
      nodes := [EmptyNode()];
      sensitiveWords := {};
      index := map[[] := Root];
    }

    /**
     * `_add_to_trie`: walk `word` from the root, creating each missing child,
     * and mark the last node as the end of a word. Only adds: every existing
     * edge and terminal flag is kept.
     */
    method AddToTrie(word: string)
      requires Valid()
      modifies this
      ensures Valid()
      ensures Contains(nodes, word)
      ensures StoredWords() == old(StoredWords()) + {word}
      ensures Extends(old(nodes), nodes)
      ensures sensitiveWords == old(sensitiveWords)
    {
      var node := Root;
      var k := 0;
      assert word[..k] == [];
      while k < |word|
        invariant InsertedUpTo(old(nodes), old(index), word, k, nodes, index, node)
        invariant sensitiveWords == old(sensitiveWords)
      {
        var c := word[k];
        if c !in nodes[node].children {
          InsertStepNewChild(old(nodes), old(index), word, k, nodes, index, node);
          index := index[word[..k + 1] := |nodes|];
          nodes := AddChild(nodes, node, c);
        } else {
          InsertStepExistingChild(old(nodes), old(index), word, k, nodes, index, node);
        }
        node := nodes[node].children[c];
        k := k + 1;
      }
      InsertFinish(old(nodes), old(index), word, nodes, index, node);
      nodes := MarkEnd(nodes, node);
    }

    /**
     * `load_sensitive_words`, with the stored documents' `word` fields given as
     * a sequence: reset the trie and the word set, then add every non-empty word
     * to both.
     */
    method LoadSensitiveWords(stored: seq<string>)
      modifies this
      ensures Valid()
      ensures sensitiveWords == NonEmptyWords(stored)
      ensures StoredWords() == sensitiveWords
    {
      sensitiveWords := {};
      nodes := [EmptyNode()];
      index := map[[] := Root];
      for k := 0 to |stored|
        invariant Valid()
        invariant sensitiveWords == NonEmptyWords(stored[..k])
        invariant StoredWords() == sensitiveWords
      {
        var word := stored[k];
        NonEmptyWordsStep(stored, k);
        if word != [] {
          sensitiveWords := sensitiveWords + {word};
          AddToTrie(word);
        }
      }
      assert stored[..|stored|] == stored;
    }

    /**
     * The corrected load: as LoadSensitiveWords, but every word is lowercased
     * before it goes into the trie, so that the scan of the lowercased text can
     * find it whatever its case.
     */
    method LoadSensitiveWordsFolded(stored: seq<string>)
      modifies this
      ensures Valid()
      ensures sensitiveWords == NonEmptyWords(stored)
      ensures StoredWords() == Folded(sensitiveWords)
    {
      sensitiveWords := {};
      nodes := [EmptyNode()];
      index := map[[] := Root];
      for k := 0 to |stored|
        invariant Valid()
        invariant sensitiveWords == NonEmptyWords(stored[..k])
        invariant StoredWords() == Folded(sensitiveWords)
      {
        var word := stored[k];
        NonEmptyWordsStep(stored, k);
        if word != [] {
          FoldedAdd(sensitiveWords, word);
          sensitiveWords := sensitiveWords + {word};
          AddToTrie(Lower(word));
        }
      }
      assert stored[..|stored|] == stored;
    }

    /**
     * `check_text`: lowercase the text once, then from every start offset walk
     * the trie (see FirstEndFrom) and report the slice walked when a terminal
     * node is reached.
     */
    method CheckText(text: string) returns (contains: bool, found: seq<string>)
      requires Valid()
      ensures found == WordsOf(Scan(StoredWords(), Lower(text)))
      ensures contains <==> |found| > 0
      ensures text == [] ==> !contains && found == []
    {
      if text == [] {
        assert Lower(text) == [];
        return false, [];
      }
      found := [];
      var textLower := Lower(text);
      ghost var words := StoredWords();
      var i := 0;
      while i < |textLower|
        invariant 0 <= i <= |textLower|
        invariant found == WordsOf(MatchesUpTo(words, textLower, i))
      {
        var hit := FirstEndFrom(textLower, i);
        if hit.Some? {
          ScanStepSome(words, textLower, i, hit.value);
          found := found + [textLower[i..i + hit.value]];
        } else {
          ScanStepNone(words, textLower, i);
        }
        i := i + 1;
      }
      contains := |found| > 0;
    }

    /**
     * The inner loop of `check_text` for start offset `i`: descend the trie
     * along `t[i..]` until an edge is missing (no report) or the first
     * terminal node is reached (report the length walked). That length is the
     * shortest stored word that starts at `i`.
     */
    method FirstEndFrom(t: string, i: nat) returns (hit: Option<nat>)
      requires Valid()
      requires i < |t|
      ensures hit == ShortestAt(StoredWords(), t, i, 1)
    {
      ghost var words := StoredWords();
      var node := Root;
      var j := i;
      assert t[i..j] == [];
      while j < |t|
        invariant i <= j <= |t|
        invariant t[i..j] in index && index[t[i..j]] == node
        invariant ShortestAt(words, t, i, 1) == ShortestAt(words, t, i, j - i + 1)
      {
        var c := t[j];
        if c !in nodes[node].children {
          SliceNoChild(nodes, index, t, i, j);
          NoLongerWord(nodes, index, t, i, j);
          ShortestNone(words, t, i, j - i + 1);
          return None;
        }
        SliceChild(nodes, index, t, i, j);
        node := nodes[node].children[c];
        TerminalIffStored(nodes, index, t[i..j + 1]);
        if nodes[node].isEndOfWord {
          ShortestHit(words, t, i, j + 1 - i);
          return Some(j + 1 - i);
        }
        ShortestSkip(words, t, i, j + 1 - i);
        j := j + 1;
      }
      return None;
    }
  }
}
