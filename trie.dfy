/**
 * The prefix tree behind the sensitive-word filter, as a node heap.
 *
 * Each node of the source's `TrieNode` class becomes an entry of a sequence
 * `nodes`; a child pointer becomes the id (position) of the child in that
 * sequence, and the root is the node with id 0. A ghost map `index` names, for
 * every character path that exists in the tree, the id of the node it leads
 * to; `WellFormed` ties that map to the real child links, and `Walk` (the
 * executable descent from the root) is proved to agree with it.
 */
module Trie {

  import opened Options

  /** One trie node: its outgoing edges and whether a stored word ends here. */
  datatype TrieNode = TrieNode(children: map<char, nat>, isEndOfWord: bool)

  /** The id of the root node in the node heap. */
  const Root: nat := 0

  /** A freshly created node: no children, not the end of a word. */
  function EmptyNode(): TrieNode {
    TrieNode(map[], false)
  }

  function Parent(s: string): string
    requires s != []
  {
    s[..|s| - 1]
  }

  function Last(s: string): char
    requires s != []
  {
    s[|s| - 1]
  }

  /** Every path in the index leads to a node of the heap. */
  ghost predicate InBounds(nodes: seq<TrieNode>, index: map<string, nat>) {
    forall s :: s in index ==> index[s] < |nodes|
  }

  /** Distinct paths lead to distinct nodes (the structure is a tree). */
  ghost predicate Injective(index: map<string, nat>) {
    forall s, t :: s in index && t in index && index[s] == index[t] ==> s == t
  }

  /** The node of a non-empty path hangs below the node of its parent path, on its last character. */
  ghost predicate LinkedToParent(nodes: seq<TrieNode>, index: map<string, nat>, s: string)
    requires InBounds(nodes, index)
    requires s in index && s != []
  {
    && Parent(s) in index
    && Last(s) in nodes[index[Parent(s)]].children
    && nodes[index[Parent(s)]].children[Last(s)] == index[s]
  }

  /** Every named non-empty path hangs below its parent path. */
  ghost predicate AllLinked(nodes: seq<TrieNode>, index: map<string, nat>)
    requires InBounds(nodes, index)
  {
    forall s {:trigger LinkedToParent(nodes, index, s)} :: s in index && s != [] ==> LinkedToParent(nodes, index, s)
  }

  /** Every edge leaving a named node leads to a named path. */
  ghost predicate ChildrenNamed(nodes: seq<TrieNode>, index: map<string, nat>)
    requires InBounds(nodes, index)
  {
    forall s, c :: s in index && c in nodes[index[s]].children ==> s + [c] in index
  }

  /** `index` names exactly the paths of the tree rooted at node 0. */
  ghost predicate WellFormed(nodes: seq<TrieNode>, index: map<string, nat>) {
    && [] in index && index[[]] == Root
    && InBounds(nodes, index)
    && Injective(index)
    && AllLinked(nodes, index)
    && ChildrenNamed(nodes, index)
  }

  /** The words stored in the tree: the paths that end at a terminal node. */
  ghost function TrieWords(nodes: seq<TrieNode>, index: map<string, nat>): set<string>
    requires InBounds(nodes, index)
  {
    set s | s in index && nodes[index[s]].isEndOfWord
  }

  /** A path of the tree is a stored word exactly when its node is terminal. */
  lemma TerminalIffStored(nodes: seq<TrieNode>, index: map<string, nat>, s: string)
    requires InBounds(nodes, index)
    requires s in index
    ensures s in TrieWords(nodes, index) <==> nodes[index[s]].isEndOfWord
  {
  }

  /** Descend from node `k` along the characters of `s`; None when an edge is missing. */
  function Walk(nodes: seq<TrieNode>, k: nat, s: string): Option<nat>
    decreases |s|
  {
    if s == [] then
      if k < |nodes| then Some(k) else None
    else if k < |nodes| && s[0] in nodes[k].children then
      Walk(nodes, nodes[k].children[s[0]], s[1..])
    else
      None
  }

  /** Whether the path spelling `w` exists from the root and ends at a terminal node. */
  function Contains(nodes: seq<TrieNode>, w: string): bool {
    match Walk(nodes, Root, w)
    case Some(k) => k < |nodes| && nodes[k].isEndOfWord
    case None => false
  }

  /** `b` keeps every node, edge and terminal flag of `a`: it only adds to the trie. */
  ghost predicate Extends(a: seq<TrieNode>, b: seq<TrieNode>) {
    && |a| <= |b|
    && (forall k, c :: 0 <= k < |a| && c in a[k].children ==>
          c in b[k].children && b[k].children[c] == a[k].children[c])
    && (forall k :: 0 <= k < |a| && a[k].isEndOfWord ==> b[k].isEndOfWord)
  }

  lemma ExtendsTransitive(a: seq<TrieNode>, b: seq<TrieNode>, c: seq<TrieNode>)
    requires Extends(a, b) && Extends(b, c)
    ensures Extends(a, c)
  {
  }

  /** Create a child on character `c` below node `parent` (`node.children[char] = TrieNode()`). */
  function AddChild(nodes: seq<TrieNode>, parent: nat, c: char): (r: seq<TrieNode>)
    requires parent < |nodes| && c !in nodes[parent].children
    ensures Extends(nodes, r)
    ensures |r| == |nodes| + 1 && r[|nodes|] == EmptyNode()
    ensures r[parent].children == nodes[parent].children[c := |nodes|]
    ensures forall k :: 0 <= k < |nodes| && k != parent ==> r[k] == nodes[k]
    ensures r[parent].isEndOfWord == nodes[parent].isEndOfWord
  {
    nodes[parent := nodes[parent].(children := nodes[parent].children[c := |nodes|])] + [EmptyNode()]
  }

  /** Set the terminal flag of node `k` (`node.is_end_of_word = True`). */
  function MarkEnd(nodes: seq<TrieNode>, k: nat): (r: seq<TrieNode>)
    requires k < |nodes|
    ensures Extends(nodes, r)
    ensures |r| == |nodes| && r[k].isEndOfWord
    ensures r[k].children == nodes[k].children
    ensures forall m :: 0 <= m < |nodes| && m != k ==> r[m] == nodes[m]
  {
    nodes[k := nodes[k].(isEndOfWord := true)]
  }

  /** The node of a non-empty path is reached from its parent's node on the path's last character. */
  lemma ParentEdge(nodes: seq<TrieNode>, index: map<string, nat>, t: string)
    requires WellFormed(nodes, index)
    requires t in index && t != []
    ensures LinkedToParent(nodes, index, t)
  {
  }

  /** A node's child on `c` is the node of the path extended by `c`. */
  lemma ChildLookup(nodes: seq<TrieNode>, index: map<string, nat>, s: string, c: char)
    requires WellFormed(nodes, index)
    requires s in index && c in nodes[index[s]].children
    ensures s + [c] in index && nodes[index[s]].children[c] == index[s + [c]]
  {
    var t := s + [c];
    assert Parent(t) == s && Last(t) == c;
    assert LinkedToParent(nodes, index, t);
  }

  /** A missing edge means the extended path is not in the tree. */
  lemma NoChild(nodes: seq<TrieNode>, index: map<string, nat>, s: string, c: char)
    requires WellFormed(nodes, index)
    requires s in index && c !in nodes[index[s]].children
    ensures s + [c] !in index
  {
    var t := s + [c];
    assert Parent(t) == s && Last(t) == c;
    if t in index {
      ParentEdge(nodes, index, t);
    }
  }

  /** The paths of the tree are closed under taking prefixes. */
  lemma {:induction false} PrefixClosed(nodes: seq<TrieNode>, index: map<string, nat>, s: string, p: string)
    requires WellFormed(nodes, index)
    requires s in index && p <= s
    ensures p in index
    decreases |s|
  {
    if |p| < |s| {
      assert LinkedToParent(nodes, index, s);
      assert p <= Parent(s);
      PrefixClosed(nodes, index, Parent(s), p);
    } else {
      assert p == s;
    }
  }

  /** Walking from the node of path `p` along `s` reaches exactly the node of `p + s`. */
  lemma {:induction false} WalkFrom(nodes: seq<TrieNode>, index: map<string, nat>, p: string, s: string)
    requires WellFormed(nodes, index)
    requires p in index
    ensures Walk(nodes, index[p], s) == if p + s in index then Some(index[p + s]) else None
    decreases |s|
  {
    if s == [] {
      assert p + s == p;
    } else {
      var c := s[0];
      var k := index[p];
      assert p + s == (p + [s[0]]) + s[1..] && p + [s[0]] <= p + s;
      if c in nodes[k].children {
        ChildLookup(nodes, index, p, c);
        assert Walk(nodes, k, s) == Walk(nodes, index[p + [c]], s[1..]);
        WalkFrom(nodes, index, p + [c], s[1..]);
      } else {
        assert Walk(nodes, k, s) == None;
        NoChild(nodes, index, p, c);
        if p + s in index {
          PrefixClosed(nodes, index, p + s, p + [c]);
          assert false;
        }
      }
    }
  }

  /** The ghost index describes the real tree: a word is stored iff walking it from the root ends at a terminal node. */
  lemma StoredIffContains(nodes: seq<TrieNode>, index: map<string, nat>, w: string)
    requires WellFormed(nodes, index)
    ensures w in TrieWords(nodes, index) <==> Contains(nodes, w)
  {
    WalkFrom(nodes, index, [], w);
    assert [] + w == w;
  }

  /** Adding a missing child keeps the tree well formed and names the new path; the stored words do not change. */
  lemma AddChildKeepsWellFormed(nodes: seq<TrieNode>, index: map<string, nat>, s: string, c: char)
    requires WellFormed(nodes, index)
    requires s in index && c !in nodes[index[s]].children
    ensures s + [c] !in index
    ensures WellFormed(AddChild(nodes, index[s], c), index[s + [c] := |nodes|])
    ensures TrieWords(AddChild(nodes, index[s], c), index[s + [c] := |nodes|]) == TrieWords(nodes, index)
  {
    NoChild(nodes, index, s, c);
    AddChildInBounds(nodes, index, s, c);
    AddChildLinks(nodes, index, s, c);
    AddChildClosed(nodes, index, s, c);
    AddChildSameWords(nodes, index, s, c);
  }

  lemma AddChildInBounds(nodes: seq<TrieNode>, index: map<string, nat>, s: string, c: char)
    requires WellFormed(nodes, index)
    requires s in index && c !in nodes[index[s]].children
    requires s + [c] !in index
    ensures InBounds(AddChild(nodes, index[s], c), index[s + [c] := |nodes|])
    ensures Injective(index[s + [c] := |nodes|])
  {
  }

  lemma AddChildLinks(nodes: seq<TrieNode>, index: map<string, nat>, s: string, c: char)
    requires WellFormed(nodes, index)
    requires s in index && c !in nodes[index[s]].children
    requires s + [c] !in index
    requires InBounds(AddChild(nodes, index[s], c), index[s + [c] := |nodes|])
    ensures AllLinked(AddChild(nodes, index[s], c), index[s + [c] := |nodes|])
  {
    var t := s + [c];
    var nodes' := AddChild(nodes, index[s], c);
    var index' := index[t := |nodes|];
    assert Parent(t) == s && Last(t) == c;
    forall u | u in index' && u != []
      ensures LinkedToParent(nodes', index', u)
    {
      if u != t {
        ParentEdge(nodes, index, u);
        assert Parent(u) != t by {
          if Parent(u) == t {
            PrefixClosed(nodes, index, u, t);
          }
        }
      }
    }
  }

  lemma AddChildClosed(nodes: seq<TrieNode>, index: map<string, nat>, s: string, c: char)
    requires WellFormed(nodes, index)
    requires s in index && c !in nodes[index[s]].children
    requires s + [c] !in index
    requires InBounds(AddChild(nodes, index[s], c), index[s + [c] := |nodes|])
    ensures ChildrenNamed(AddChild(nodes, index[s], c), index[s + [c] := |nodes|])
  {
    var t := s + [c];
    var p := index[s];
    var nodes' := AddChild(nodes, p, c);
    var index' := index[t := |nodes|];
    forall u, d | u in index' && d in nodes'[index'[u]].children
      ensures u + [d] in index'
    {
      if u != t && !(index[u] == p && d == c) {
        assert d in nodes[index[u]].children;
      }
    }
  }

  lemma AddChildSameWords(nodes: seq<TrieNode>, index: map<string, nat>, s: string, c: char)
    requires InBounds(nodes, index)
    requires s in index && c !in nodes[index[s]].children
    requires s + [c] !in index
    requires InBounds(AddChild(nodes, index[s], c), index[s + [c] := |nodes|])
    ensures TrieWords(AddChild(nodes, index[s], c), index[s + [c] := |nodes|]) == TrieWords(nodes, index)
  {
    var t := s + [c];
    var nodes' := AddChild(nodes, index[s], c);
    var index' := index[t := |nodes|];
    forall u | u in index'
      ensures nodes'[index'[u]].isEndOfWord <==> u in index && nodes[index[u]].isEndOfWord
    {
      if u != t {
        assert index'[u] == index[u] < |nodes|;
      }
    }
  }

  /** Marking the node of `w` terminal keeps the tree well formed and adds exactly `w` to the stored words. */
  lemma MarkEndAddsWord(nodes: seq<TrieNode>, index: map<string, nat>, w: string)
    requires WellFormed(nodes, index)
    requires w in index
    ensures WellFormed(MarkEnd(nodes, index[w]), index)
    ensures TrieWords(MarkEnd(nodes, index[w]), index) == TrieWords(nodes, index) + {w}
  {
    var nodes' := MarkEnd(nodes, index[w]);
    forall u | u in index && u != []
      ensures LinkedToParent(nodes', index, u)
    {
      assert LinkedToParent(nodes, index, u);
    }
  }
}
