/**
 The trie backend: a tree of nodes whose `children` maps are keyed by
 character. Only construction and bulk building do real work; the other
 operations answer constants.
 */
module TrieDict {
  import opened WordFrequencies

  /** The prefixes `w[..0]`, ..., `w[..n]` of `w`. */
  ghost function PrefixesUpTo(w: string, n: nat): set<string>
    requires n <= |w|
  {
    set k | 0 <= k <= n :: w[..k]
  }

  /** Every prefix, the empty one and the whole word included, of every word of `s`. */
  ghost function Prefixes(s: seq<WordFrequency>): set<string>
  {
    if s == [] then {}
    else Prefixes(s[..|s| - 1]) + PrefixesUpTo(s[|s| - 1].word, |s[|s| - 1].word|)
  }

  lemma TakeOneMore(w: string, j: nat)
    requires j < |w|
    ensures w[..j + 1] == w[..j] + [w[j]]
  {
  }

  lemma PrefixesUpToStep(w: string, j: nat)
    requires j < |w|
    ensures PrefixesUpTo(w, j + 1) == PrefixesUpTo(w, j) + {w[..j + 1]}
  {
  }

  /** One node of the trie; the root carries no letter. */
  class TrieNode {
    var letter: Option<char>
    var frequency: Option<int>
    var isLast: bool
    var children: map<char, TrieNode>

    constructor (letter: Option<char> := None, frequency: Option<int> := None, isLast: bool := false)
      ensures this.letter == letter && this.frequency == frequency && this.isLast == isLast
      ensures children == map[]
    {
      this.letter := letter;
      this.frequency := frequency;
      this.isLast := isLast;
      children := map[];
    }

    /** Looks through the keys of `children` one by one for `ch`. */
    method HasChild(ch: char) returns (found: bool)
      ensures found <==> ch in children
    {
      found := false;
      var remaining := children.Keys;
      while remaining != {} && !found
        invariant remaining <= children.Keys
        invariant found <==> ch in children.Keys - remaining
        decreases remaining
      {
        var key :| key in remaining;
        if key == ch {
          found := true;
        }
        remaining := remaining - {key};
      }
    }
  }

  class TrieDictionary {
    var root: TrieNode
    /** The nodes of the trie. */
    ghost var Nodes: set<TrieNode>
    /** The node reached from `root` along each path of the trie. */
    ghost var NodeAt: map<string, TrieNode>
    /** The stored words (the paths to terminal nodes) and their frequencies. */
    ghost var Words: map<string, int>

    /** The children of every node are nodes of the trie. */
    ghost predicate Closed()
      reads this, Nodes
    {
      forall n, c :: n in Nodes && c in n.children ==> n.children[c] in Nodes
    }

    /** Every path leads to a node of the trie, and the empty path to the root. */
    ghost predicate Framed()
      reads this
    {
      && (forall p :: p in NodeAt ==> NodeAt[p] in Nodes)
      && [] in NodeAt && NodeAt[[]] == root
    }

    /** Every edge leads one character further along a path. */
    ghost predicate EdgesDown()
      requires Framed()
      reads this, Nodes
    {
      forall p, c {:trigger c in NodeAt[p].children} :: p in NodeAt && c in NodeAt[p].children ==>
        p + [c] in NodeAt && NodeAt[p + [c]] == NodeAt[p].children[c]
    }

    /** Every non-empty path is an edge out of its parent path. */
    ghost predicate EdgesUp()
      requires Framed()
      reads this, Nodes
    {
      forall p, c {:trigger p + [c] in NodeAt} :: p + [c] in NodeAt ==> p in NodeAt && c in NodeAt[p].children
    }

    /** Tree shape: no node is reached along two paths. */
    ghost predicate Unshared()
      reads this
    {
      forall p, q :: p in NodeAt && q in NodeAt && NodeAt[p] == NodeAt[q] ==> p == q
    }

    /** The root carries no letter, and a child's letter is the key it is stored under. */
    ghost predicate Lettered()
      requires Framed()
      reads this, Nodes
    {
      && root.letter == None
      && forall p, c {:trigger p + [c] in NodeAt} :: p + [c] in NodeAt ==> NodeAt[p + [c]].letter == Some(c)
    }

    /**
     The terminal nodes are exactly the stored words and carry their
     frequencies; every other node carries no frequency.
     */
    ghost predicate Marked()
      requires Framed()
      reads this, Nodes
    {
      && Words.Keys <= NodeAt.Keys
      && forall p :: p in NodeAt ==>
           (NodeAt[p].isLast <==> p in Words) &&
           NodeAt[p].frequency == (if p in Words then Some(Words[p]) else None)
    }

    ghost predicate Valid()
      reads this, Nodes
    {
      Framed() && Closed() && EdgesDown() && EdgesUp() && Unshared() && Lettered() && Marked()
    }

    /** Follows the `children` maps from `n` along the characters of `w`. */
    ghost function Walk(n: TrieNode, w: string): Option<TrieNode>
      requires Closed() && n in Nodes
      reads this, Nodes
      decreases |w|
    {
      if w == [] then Some(n)
      else if w[0] in n.children then Walk(n.children[w[0]], w[1..])
      else None
    }

    /** Every prefix of a path is a path, and the next character labels an edge out of it. */
    lemma {:induction false} PathPrefix(q: string, k: nat)
      requires Valid() && k <= |q|
      ensures q in NodeAt ==> q[..k] in NodeAt
      ensures q in NodeAt && k < |q| ==> q[k] in NodeAt[q[..k]].children
      decreases |q| - k
    {
      if q in NodeAt {
        if k < |q| {
          var parent := q[..|q| - 1];
          assert q == parent + [q[|q| - 1]];
          if k < |q| - 1 {
            PathPrefix(parent, k);
            assert parent[..k] == q[..k] && parent[k] == q[k];
          }
        } else {
          assert q[..k] == q;
        }
      }
    }

    /** Walking from the node at path `p` along `w` ends exactly at the node at path `p + w`. */
    lemma {:induction false} WalkFollowsPaths(p: string, w: string)
      requires Valid() && p in NodeAt
      ensures Walk(NodeAt[p], w) == if p + w in NodeAt then Some(NodeAt[p + w]) else None
      decreases |w|
    {
      if w == [] {
        assert p + w == p;
      } else {
        assert p + w == (p + [w[0]]) + w[1..];
        assert (p + w)[..|p|] == p && (p + w)[|p|] == w[0];
        PathPrefix(p + w, |p|);
        if w[0] in NodeAt[p].children {
          WalkFollowsPaths(p + [w[0]], w[1..]);
        }
      }
    }

    /**
     A word is stored exactly when walking its characters from the root
     succeeds and ends at a terminal node; that node holds the word's
     frequency, and a non-terminal node reached along a prefix holds none.
     */
    lemma FindsStoredWords(w: string)
      requires Valid()
      ensures Walk(root, w).Some? && Walk(root, w).value.isLast <==> w in Words
      ensures w in Words ==> Walk(root, w).value.frequency == Some(Words[w])
      ensures Walk(root, w).Some? && !Walk(root, w).value.isLast ==> Walk(root, w).value.frequency == None
    {
      WalkFollowsPaths([], w);
      assert [] + w == w;
    }

    /**
     After storing the entries `wfs` (as `BuildDictionary` does), walking any
     input word from the root ends at a terminal node holding the frequency
     of the word's last entry.
     */
    lemma FindsInputWords(m: map<string, int>, wfs: seq<WordFrequency>, w: string)
      requires Valid() && Words == Store(m, wfs) && w in WordsOf(wfs)
      ensures Walk(root, w).Some? && Walk(root, w).value.isLast
      ensures Walk(root, w).value.frequency == Some(wfs[LastIndex(wfs, w)].frequency)
    {
      StoreLastWins(m, wfs, w, LastIndex(wfs, w));
      FindsStoredWords(w);
    }

    /** The root is created with a single non-terminal child under `'c'`. */
    constructor ()
      ensures Valid() && fresh(Nodes)
      ensures Words == map[]
      ensures NodeAt.Keys == {[], ['c']}
      ensures !root.isLast && root.frequency == None && root.children.Keys == {'c'}
      ensures root.children['c'].letter == Some('c') && !root.children['c'].isLast
      ensures root.children['c'].frequency == None && root.children['c'].children == map[]
    {
      var r := new TrieNode();
      var c := new TrieNode(Some('c'), None, false);
      r.children := map['c' := c];
      root := r;
      Nodes := {r, c};
      NodeAt := map[[] := r, ['c'] := c];
      Words := map[];
      new;
      assert [] + ['c'] == ['c'];
      forall q, x | q + [x] in NodeAt ensures q == [] && x == 'c' {
        assert |q + [x]| == |q| + 1;
        assert q + [x] == ['c'];
        assert x == (q + [x])[|q|];
      }
    }

    /**
     Inserts every input entry: walks down from the root reusing existing
     edges and creating missing ones, then marks the end node terminal with
     the entry's frequency. Nothing present before is removed or unmarked.
     */
    method BuildDictionary(wfs: seq<WordFrequency>)
      requires Valid()
      modifies this, Nodes
      ensures Valid() && root == old(root)
      ensures fresh(Nodes - old(Nodes))
      ensures forall p :: p in old(NodeAt) ==> p in NodeAt && NodeAt[p] == old(NodeAt)[p]
      ensures NodeAt.Keys == old(NodeAt.Keys) + Prefixes(wfs)
      ensures Words == Store(old(Words), wfs)
      ensures Words.Keys == old(Words.Keys) + WordsOf(wfs)
      ensures forall w, i :: IsLastOccurrence(wfs, w, i) ==> w in Words && Words[w] == wfs[i].frequency
      ensures forall w :: w in old(Words) && w !in WordsOf(wfs) ==> w in Words && Words[w] == old(Words)[w]
    {
      ghost var nodeAt0, words0, nodes0 := NodeAt, Words, Nodes;
      var i := 0;
      while i < |wfs|
        invariant 0 <= i <= |wfs|
        invariant Valid() && root == old(root)
        invariant nodes0 <= Nodes && fresh(Nodes - nodes0)
        invariant forall p :: p in nodeAt0 ==> p in NodeAt && NodeAt[p] == nodeAt0[p]
        invariant NodeAt.Keys == nodeAt0.Keys + Prefixes(wfs[..i])
        invariant Words == Store(words0, wfs[..i])
      {
        InsertWord(wfs[i]);
        assert wfs[..i + 1][..i] == wfs[..i];
        i := i + 1;
      }
      assert wfs[..i] == wfs;
      StoreFacts(words0, wfs);
    }

    /**
     One round of the building loop: walks down from the root along the
     word, reusing existing edges and creating missing ones, then marks the
     end node terminal with the entry's frequency.
     */
    method InsertWord(wf: WordFrequency)
      requires Valid()
      modifies this, Nodes
      ensures Valid() && root == old(root)
      ensures old(Nodes) <= Nodes && fresh(Nodes - old(Nodes))
      ensures forall p :: p in old(NodeAt) ==> p in NodeAt && NodeAt[p] == old(NodeAt)[p]
      ensures NodeAt.Keys == old(NodeAt.Keys) + PrefixesUpTo(wf.word, |wf.word|)
      ensures Words == old(Words)[wf.word := wf.frequency]
    {
      var w := wf.word;
      var node := root;
      var j := 0;
      while j < |w|
        invariant 0 <= j <= |w|
        invariant Valid() && root == old(root) && Words == old(Words)
        invariant old(Nodes) <= Nodes && fresh(Nodes - old(Nodes))
        invariant forall p :: p in old(NodeAt) ==> p in NodeAt && NodeAt[p] == old(NodeAt)[p]
        invariant NodeAt.Keys == old(NodeAt.Keys) + PrefixesUpTo(w, j)
        invariant w[..j] in NodeAt && NodeAt[w[..j]] == node
      {
        TakeOneMore(w, j);
        node := Descend(node, w[..j], w[j]);
        PrefixesUpToStep(w, j);
        j := j + 1;
      }
      assert w[..j] == w;
      MarkLast(node, w, wf.frequency);
    }

    /**
     One step down the trie: the child of `node` under `ch` when there is
     one, otherwise a new child created there.
     */
    method Descend(node: TrieNode, ghost p: string, ch: char) returns (next: TrieNode)
      requires Valid() && p in NodeAt && NodeAt[p] == node
      modifies this, node
      ensures Valid() && root == old(root) && Words == old(Words)
      ensures old(Nodes) <= Nodes && fresh(Nodes - old(Nodes))
      ensures forall q :: q in old(NodeAt) ==> q in NodeAt && NodeAt[q] == old(NodeAt)[q]
      ensures NodeAt.Keys == old(NodeAt.Keys) + {p + [ch]}
      ensures p + [ch] in NodeAt && NodeAt[p + [ch]] == next
    {
      var found := node.HasChild(ch);
      if found {
        next := node.children[ch];
      } else {
        next := AddChild(node, p, ch);
      }
    }

    /** Creates a non-terminal child of the node at path `p` under the missing key `ch`. */
    method AddChild(node: TrieNode, ghost p: string, ch: char) returns (child: TrieNode)
      requires Valid() && p in NodeAt && NodeAt[p] == node && ch !in node.children
      modifies this, node
      ensures Valid() && root == old(root) && Words == old(Words)
      ensures Nodes == old(Nodes) + {child} && fresh(child)
      ensures NodeAt == old(NodeAt)[p + [ch] := child] && p + [ch] !in old(NodeAt)
      ensures node.children == old(node.children)[ch := child]
      ensures child.letter == Some(ch) && !child.isLast && child.frequency == None && child.children == map[]
    {
      assert p + [ch] !in NodeAt;
      child := new TrieNode(Some(ch), None, false);
      node.children := node.children[ch := child];
      NodeAt := NodeAt[p + [ch] := child];
      Nodes := Nodes + {child};
      assert (p + [ch])[..|p|] == p;
      ChildAddedKeepsEdgesDown(p + [ch]);
      ChildAddedKeepsEdgesUp(p + [ch]);
      ChildAddedKeepsMarks(p + [ch]);
    }

    /**
     The change `AddChild` makes: `child`, a new non-terminal leaf lettered
     `ch`, hangs under key `ch` of the node at path `p`, and nothing else changes.
     */
    twostate predicate ChildAdded(p: string, ch: char, new child: TrieNode)
      reads this, Nodes
    {
      && old(Valid()) && p in old(NodeAt) && ch !in old(NodeAt[p].children)
      && p + [ch] !in old(NodeAt)
      && child !in old(Nodes) && Nodes == old(Nodes) + {child}
      && NodeAt == old(NodeAt)[p + [ch] := child]
      && root == old(root) && Words == old(Words)
      && child.letter == Some(ch) && !child.isLast && child.frequency == None && child.children == map[]
      && old(NodeAt[p]).children == old(NodeAt[p].children)[ch := child]
      && forall n :: n in old(Nodes) ==>
           && n.letter == old(n.letter) && n.isLast == old(n.isLast) && n.frequency == old(n.frequency)
           && (n != old(NodeAt[p]) ==> n.children == old(n.children))
    }

    twostate lemma ChildAddedKeepsEdgesDown(k: string)
      requires k != [] && k in NodeAt && ChildAdded(k[..|k| - 1], k[|k| - 1], NodeAt[k])
      ensures Framed() && Closed() && EdgesDown()
    {
      var p, ch := k[..|k| - 1], k[|k| - 1];
      assert k == p + [ch];
      var node := old(NodeAt[p]);
      forall q, c | q in NodeAt && c in NodeAt[q].children
        ensures q + [c] in NodeAt && NodeAt[q + [c]] == NodeAt[q].children[c]
      {
        if q != k {
          assert q in old(NodeAt);
          if q == p && c == ch {
            assert q + [c] == k;
          } else {
            assert c in old(NodeAt[q].children);
            assert q + [c] != k;
          }
        }
      }
    }

    twostate lemma ChildAddedKeepsEdgesUp(k: string)
      requires k != [] && k in NodeAt && ChildAdded(k[..|k| - 1], k[|k| - 1], NodeAt[k])
      ensures Framed() && EdgesUp() && Lettered()
    {
      var p, ch := k[..|k| - 1], k[|k| - 1];
      assert k == p + [ch];
      forall q, c | q + [c] in NodeAt ensures q in NodeAt && c in NodeAt[q].children {
        if q + [c] == k {
          assert q == (q + [c])[..|q|] == k[..|p|] == p;
        } else {
          assert q + [c] in old(NodeAt);
        }
      }
      forall q, c | q + [c] in NodeAt ensures NodeAt[q + [c]].letter == Some(c) {
        if q + [c] == k {
          assert c == (q + [c])[|q|] == k[|p|] == ch;
        } else {
          assert q + [c] in old(NodeAt);
        }
      }
    }

    twostate lemma ChildAddedKeepsMarks(k: string)
      requires k != [] && k in NodeAt && ChildAdded(k[..|k| - 1], k[|k| - 1], NodeAt[k])
      ensures Framed() && Unshared() && Marked()
    {
      var p, ch := k[..|k| - 1], k[|k| - 1];
      assert k == p + [ch];
      forall q | q in NodeAt
        ensures (NodeAt[q].isLast <==> q in Words) && NodeAt[q].frequency == (if q in Words then Some(Words[q]) else None)
      {
        if q != k { assert q in old(NodeAt); }
      }
    }

    /** Marks the node at path `w` terminal with frequency `f`. */
    method MarkLast(node: TrieNode, ghost w: string, f: int)
      requires Valid() && w in NodeAt && NodeAt[w] == node
      modifies this, node
      ensures Valid()
      ensures root == old(root) && Nodes == old(Nodes) && NodeAt == old(NodeAt)
      ensures Words == old(Words)[w := f]
      ensures node.isLast && node.frequency == Some(f)
    {
      node.frequency := Some(f);
      node.isLast := true;
      Words := Words[w := f];
    }

    /** Not implemented in the source: always 0, and the trie is unchanged. */
    method Search(word: string) returns (frequency: int)
      ensures frequency == 0
    {
      frequency := 0;
    }

    /** Not implemented in the source: always fails, and the trie is unchanged. */
    method AddWordFrequency(wf: WordFrequency) returns (added: bool)
      ensures !added
    {
      added := false;
    }

    /** Not implemented in the source: always fails, and the trie is unchanged. */
    method DeleteWord(word: string) returns (deleted: bool)
      ensures !deleted
    {
      deleted := false;
    }

    /** Not implemented in the source: always the empty list, and the trie is unchanged. */
    method Autocomplete(word: string) returns (completions: seq<WordFrequency>)
      ensures completions == []
    {
      completions := [];
    }
  }
}
