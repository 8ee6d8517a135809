/** The dictionary as it is built: a tree of nodes for encoding and a flat list for decoding. The
  * nodes are objects linked by arrays; a map from words to nodes says which is which. */
module LzwDict {
  import opened Bytes
  import opened LzwWords

  /** One child for every byte that continues the word. */
  class LzwTreeNode {
    var nodes: map<byte, LzwTreeNode>
    var idx: nat
    /** The word on the way from the root to here. */
    ghost const word: seq<byte>

    constructor (ghost word: seq<byte>)
      ensures nodes == map[] && idx == 0 && this.word == word
    {
      nodes, idx := map[], 0;
      this.word := word;
    }
  }

  class LzwDict {
    const encTree: LzwTreeNode
    const dec: array<seq<byte>>
    var nextIdx: nat
    var curNode: LzwTreeNode
    var pending: seq<byte>
    /** The nodes by their words, the root's being empty. */
    ghost var nodeOf: map<seq<byte>, LzwTreeNode>

    constructor ()
      ensures Valid() && View() == Initial() && fresh(dec) && fresh(nodeOf.Values)
    {
      hide Tree, Linked, Trie, View, Index, Initial, Singles;
      encTree := new LzwTreeNode([]);
      dec := new seq<byte>[LZW_DICT_SIZE](_ => []);
      nextIdx := LZW_DICT_EOF + 1;
      pending := [];
      curNode := encTree;
      new;
      nodeOf := map[[] := encTree];
      OnlyRoot();
      Init();
    }

    lemma OnlyRoot()
      requires nodeOf == map[[] := encTree] && encTree.nodes == map[] && encTree.word == [] && dec.Length == LZW_DICT_SIZE
      ensures Tree()
    {
      forall w | w in nodeOf ensures nodeOf[w].word == w && Linked(w) {
        assert w == [];
      }
    }

    /** The children of a node are the nodes of the words that are one byte longer. */
    ghost predicate Linked(w: seq<byte>)
      requires w in nodeOf
      reads this`nodeOf, nodeOf[w]
    {
      forall b: byte ::
        (b in nodeOf[w].nodes <==> w + [b] in nodeOf) && (b in nodeOf[w].nodes ==> nodeOf[w].nodes[b] == nodeOf[w + [b]])
    }

    ghost predicate Tree()
      reads this`nodeOf, nodeOf.Values
    {
      && dec.Length == LZW_DICT_SIZE && [] in nodeOf && nodeOf[[]] == encTree
      && (forall w | w in nodeOf :: nodeOf[w].word == w && Linked(w))
    }

    ghost predicate Valid()
      reads this, dec, nodeOf.Values
    {
      Tree() && pending in nodeOf && nodeOf[pending] == curNode && Trie(View())
    }

    ghost function Index(): (m: map<seq<byte>, nat>)
      reads this`nodeOf, nodeOf.Values
    {
      map w | w in nodeOf && w != [] :: nodeOf[w].idx
    }

    ghost function View(): Dict
      reads this, dec, nodeOf.Values
    {
      Dict(Index(), dec[..], nextIdx, pending)
    }

    /** Hangs a new node below an existing one. */
    method AddNode(node: LzwTreeNode, b: byte, idx: nat)
      requires Tree() && node.word in nodeOf && nodeOf[node.word] == node
      requires node.word + [b] !in nodeOf && forall c: byte :: node.word + [b] + [c] !in nodeOf
      modifies this`nodeOf, node
      ensures Tree() && node.word + [b] in nodeOf && fresh(nodeOf[node.word + [b]])
      ensures nodeOf == old(nodeOf)[node.word + [b] := nodeOf[node.word + [b]]]
      ensures node.nodes == old(node.nodes)[b := nodeOf[node.word + [b]]]
      ensures Index() == old(Index())[node.word + [b] := idx]
    {
      hide Tree, Linked;
      var newNode := new LzwTreeNode(node.word + [b]);
      newNode.idx := idx;
      Link(node, b, newNode);
      assert Index() == old(Index())[newNode.word := idx];
    }

    method Link(node: LzwTreeNode, b: byte, newNode: LzwTreeNode)
      requires Tree() && node.word in nodeOf && nodeOf[node.word] == node && newNode !in nodeOf.Values
      requires newNode.word == node.word + [b] && newNode.nodes == map[]
      requires newNode.word !in nodeOf && forall c: byte :: newNode.word + [c] !in nodeOf
      modifies this`nodeOf, node`nodes
      ensures Tree() && nodeOf == old(nodeOf)[newNode.word := newNode]
      ensures node.nodes == old(node.nodes)[b := newNode]
    {
      ghost var word := newNode.word;
      node.nodes := node.nodes[b := newNode];
      nodeOf := nodeOf[word := newNode];
      forall w | w in nodeOf ensures nodeOf[w].word == w && Linked(w) {
        forall c: byte ensures (c in nodeOf[w].nodes <==> w + [c] in nodeOf) && (c in nodeOf[w].nodes ==> nodeOf[w].nodes[c] == nodeOf[w + [c]]) {
          SameWord(w, c, node.word, b);
          if w != word { assert old(Linked(w)); }
        }
      }
    }

    lemma RootIs()
      requires Tree()
      ensures dec.Length == LZW_DICT_SIZE && [] in nodeOf && nodeOf[[]] == encTree && encTree.word == []
    {
    }

    lemma At(w: seq<byte>, b: byte)
      requires Tree() && w in nodeOf
      ensures nodeOf[w].word == w && (b in nodeOf[w].nodes <==> w + [b] in nodeOf)
      ensures b in nodeOf[w].nodes ==> nodeOf[w].nodes[b] == nodeOf[w + [b]]
    {
      assert Linked(w);
    }

    /** Nothing hangs below a word that is not there. */
    lemma NothingBelow(w: seq<byte>)
      requires Valid() && w != [] && w !in nodeOf
      ensures forall c: byte :: w + [c] !in nodeOf
    {
      hide Tree;
      forall c: byte ensures w + [c] !in nodeOf {
        assert (w + [c])[..|w + [c]| - 1] == w;
        assert w !in Index();
        assert w + [c] !in Index();
      }
    }

    /** The 256 single bytes. */
    method Init()
      requires Tree() && nodeOf == map[[] := encTree] && encTree.nodes == map[]
      requires nextIdx == LZW_DICT_EOF + 1 && pending == [] && curNode == encTree
      requires forall i | 0 <= i < LZW_DICT_SIZE :: dec[i] == []
      modifies this`nodeOf, encTree, dec
      ensures Valid() && View() == Initial() && fresh(nodeOf.Values - {encTree})
    {
      hide Tree, Linked, Singles, Trie, Initial, Index;
      RootIs();
      NothingIndexed();
      for i := 0 to 256
        invariant Tree() && Index() == Singles(i) && fresh(nodeOf.Values - {encTree})
        invariant forall w :: w in nodeOf <==> w == [] || w in Singles(i)
        invariant forall k | 0 <= k < LZW_DICT_SIZE :: dec[k] == if k < i then [k as byte] else []
      {
        RootIs();
        NextSingle(i);
        InitOne(i);
      }
      RootIs();
      InitialIs(dec[..]);
      InitialTrie();
    }

    lemma NothingIndexed()
      requires nodeOf.Keys == {[]}
      ensures Index() == Singles(0)
    {
    }

    method InitOne(i: nat)
      requires Tree() && i < 256 && [i as byte] !in nodeOf && forall c: byte :: [i as byte] + [c] !in nodeOf
      modifies this`nodeOf, encTree, dec
      ensures Tree() && [i as byte] in nodeOf && fresh(nodeOf[[i as byte]])
      ensures nodeOf == old(nodeOf)[[i as byte] := nodeOf[[i as byte]]]
      ensures Index() == old(Index())[[i as byte] := i]
      ensures dec[..] == old(dec[..])[i := [i as byte]]
    {
      hide Tree, Linked;
      RootIs();
      assert [] + [i as byte] == [i as byte];
      AddNode(encTree, i as byte, i);
      dec[i] := [i as byte];
    }

    /** Learns from data until the dictionary is full. */
    method Append(data: seq<byte>)
      requires Valid()
      modifies this, dec, nodeOf.Values
      ensures Valid() && View() == LearnAll(old(View()), data)
      ensures fresh(nodeOf.Values - old(nodeOf.Values))
    {
      hide Valid, Index, Learn;
      Size();
      for i := 0 to |data|
        invariant Valid() && View() == LearnAll(old(View()), data[..i])
        invariant fresh(nodeOf.Values - old(nodeOf.Values))
      {
        assert data[..i + 1][..i] == data[..i];
        if nextIdx >= LZW_DICT_SIZE {
          FullStays(old(View()), data, i);
          return;
        }
        AppendByte(data[i]);
      }
      assert data[..|data|] == data;
    }

    lemma Size()
      requires Valid()
      ensures |View().dec| == LZW_DICT_SIZE
    {
    }

    /** A word that got too long is given up. */
    method Trim()
      requires Valid()
      modifies this`pending, this`curNode
      ensures Valid() && View() == old(View()).(pending := Trimmed(old(pending)))
    {
      hide Tree, Linked, Index;
      RootIs();
      if |pending| >= LZW_WORD_LEN {
        TrimmedTrie(View());
        pending := [];
        curNode := encTree;
      }
    }

    /** The pending word continued by `b` is new: it gets a node and a number, and `b` starts over. */
    method AppendNew(b: byte)
      requires Valid() && nextIdx < LZW_DICT_SIZE && |pending| < LZW_WORD_LEN && pending + [b] !in nodeOf
      modifies this, dec, nodeOf.Values
      ensures |old(View()).dec| == LZW_DICT_SIZE && View() == Learn(old(View()), b)
      ensures Tree() && pending in nodeOf && nodeOf[pending] == curNode
      ensures fresh(nodeOf.Values - old(nodeOf.Values))
    {
      hide Tree, Linked, Index, Trie;
      ghost var d, word := View(), pending + [b];
      Size();
      RootIs();
      At(pending, b);
      NothingBelow(word);
      Known(b);
      InIndex(word);
      AddNode(curNode, b, nextIdx);
      dec[nextIdx] := pending + [b];
      nextIdx := nextIdx + 1;
      pending := [b];
      RootIs();
      At([], b);
      assert [] + [b] == [b];
      curNode := encTree.nodes[b];
    }

    lemma InIndex(w: seq<byte>)
      ensures w in Index() <==> w in nodeOf && w != []
    {
    }

    lemma WordOf(w: seq<byte>)
      requires Tree() && w in nodeOf
      ensures nodeOf[w].word == w
    {
    }

    /** A node holds the number of its word. */
    lemma NodeIdx(w: seq<byte>)
      requires Valid() && w in nodeOf && w != []
      ensures w in View().index && View().index[w] == nodeOf[w].idx < LZW_DICT_SIZE
    {
      hide Tree;
    }

    lemma Known(b: byte)
      requires Valid()
      ensures [b] in nodeOf
    {
      hide Tree;
      assert [b] in Index();
    }

    /** One byte, while there is room. */
    method AppendByte(b: byte)
      requires Valid() && nextIdx < LZW_DICT_SIZE
      modifies this, dec, nodeOf.Values
      ensures Valid() && |old(View()).dec| == LZW_DICT_SIZE && View() == Learn(old(View()), b)
      ensures fresh(nodeOf.Values - old(nodeOf.Values))
    {
      hide Tree, Linked, Trie, Index;
      Size();
      LearnKeepsTrie(View(), b);
      Trim();
      Grow(b);
    }

    /** A word that is not too long is continued. */
    method Grow(b: byte)
      requires Valid() && nextIdx < LZW_DICT_SIZE && |pending| < LZW_WORD_LEN && |View().dec| == LZW_DICT_SIZE
      requires Trie(Learn(View(), b))
      modifies this, dec, nodeOf.Values
      ensures Valid() && |old(View()).dec| == LZW_DICT_SIZE && View() == Learn(old(View()), b)
      ensures fresh(nodeOf.Values - old(nodeOf.Values))
    {
      hide Tree, Linked, Trie, Index;
      At(pending, b);
      InIndex(pending + [b]);
      if b !in curNode.nodes {
        AppendNew(b);
      } else {
        pending := pending + [b];
        curNode := curNode.nodes[b];
      }
    }
  }

  lemma {:induction false} FullStays(d: Dict, data: seq<byte>, i: nat)
    requires |d.dec| == LZW_DICT_SIZE && i <= |data| && LearnAll(d, data[..i]).nextIdx >= LZW_DICT_SIZE
    ensures LearnAll(d, data) == LearnAll(d, data[..i])
  {
    if i == |data| {
      assert data[..i] == data;
    } else {
      var init := data[..|data| - 1];
      assert init[..i] == data[..i];
      FullStays(d, init, i);
    }
  }

  lemma TrimmedTrie(d: Dict)
    requires Trie(d)
    ensures Trie(d.(pending := []))
  {
  }

  lemma NextSingle(i: nat)
    requires i < 256
    ensures Singles(i + 1) == Singles(i)[[i as byte] := i] && [i as byte] !in Singles(i)
    ensures forall c: byte :: [i as byte] + [c] !in Singles(i)
  {
  }

  lemma SameWord(v: seq<byte>, b: byte, w: seq<byte>, c: byte)
    ensures v + [b] == w + [c] <==> v == w && b == c
  {
    if v + [b] == w + [c] {
      assert (v + [b])[..|v|] == v && (w + [c])[..|w|] == w;
      assert (v + [b])[|v|] == b && (w + [c])[|w|] == c;
    }
  }

  lemma InitialIs(list: seq<seq<byte>>)
    requires |list| == LZW_DICT_SIZE && forall k | 0 <= k < LZW_DICT_SIZE :: list[k] == if k < 256 then [k as byte] else []
    ensures Initial() == Dict(Singles(256), list, LZW_DICT_EOF + 1, [])
  {
  }
}
