/** Huffman trees, the codes they give to symbols, and decoding by walking them. */
module HuffmanTree {
  import opened Bytes

  const HUFFMAN_EOF := 256

  /** The occurrence of an inner node is what the builder stored there. */
  datatype Tree = Leaf(symbol: nat, occurrence: nat)
                | Node(left: Tree, right: Tree, occurrence: nat)

  function Symbols(t: Tree): multiset<nat> {
    match t
    case Leaf(symbol, _) => multiset{symbol}
    case Node(left, right, _) => Symbols(left) + Symbols(right)
  }

  // ---- codes ----

  /** The path to every leaf, left as false and right as true. Where a symbol occurs twice
    * the later leaf counts. */
  function Codes(t: Tree, prefix: seq<bool>): map<nat, seq<bool>> {
    match t
    case Leaf(symbol, _) => map[symbol := prefix]
    case Node(left, right, _) => Codes(left, prefix + [false]) + Codes(right, prefix + [true])
  }

  datatype Step = Null | At(node: Tree)

  /** The child pointer read for one bit; the children of a leaf are null. */
  function Child(t: Tree, bit: bool): Step {
    match t
    case Leaf(_, _) => Null
    case Node(left, right, _) => At(if bit then right else left)
  }

  function Walk(t: Tree, path: seq<bool>): Step {
    if path == [] then At(t)
    else match Child(t, path[0])
      case Null => Null
      case At(next) => Walk(next, path[1..])
  }

  /** Every code leads to a leaf of its symbol. */
  lemma {:induction false} CodeLeadsToLeaf(t: Tree, prefix: seq<bool>, s: nat)
    requires s in Codes(t, prefix)
    ensures prefix <= Codes(t, prefix)[s]
    ensures var end := Walk(t, Codes(t, prefix)[s][|prefix|..]); end.At? && end.node.Leaf? && end.node.symbol == s
  {
    match t
    case Leaf(symbol, _) =>
      assert prefix[|prefix|..] == [];
    case Node(left, right, _) =>
      var bit := s in Codes(right, prefix + [true]);
      var next := prefix + [bit];
      CodeLeadsToLeaf(if bit then right else left, next, s);
      var code := Codes(t, prefix)[s];
      assert code[|prefix|] == next[|prefix|];
      assert code[|prefix|..][1..] == code[|next|..];
  }

  /** Conversely every leaf of a symbol that occurs once stands at the end of its code. */
  lemma {:induction false} CodesCoverLeaves(t: Tree, prefix: seq<bool>)
    ensures forall s :: s in Codes(t, prefix) <==> s in Symbols(t)
  {
    if t.Node? {
      CodesCoverLeaves(t.left, prefix + [false]);
      CodesCoverLeaves(t.right, prefix + [true]);
    }
  }

  /** No code of a tree begins another: after a leaf no walk goes on. */
  lemma CodesArePrefixFree(t: Tree, s: nat, u: nat)
    requires s in Codes(t, []) && u in Codes(t, []) && s != u
    ensures !(Codes(t, [])[s] <= Codes(t, [])[u])
  {
    CodeLeadsToLeaf(t, [], s);
    CodeLeadsToLeaf(t, [], u);
    var a, b := Codes(t, [])[s], Codes(t, [])[u];
    assert a[0..] == a && b[0..] == b;
    if a <= b {
      WalkOn(t, a, b);
    }
  }

  lemma {:induction false} WalkOn(t: Tree, a: seq<bool>, b: seq<bool>)
    requires a <= b && Walk(t, a).At?
    ensures Walk(t, b) == Walk(Walk(t, a).node, b[|a|..])
  {
    if a != [] {
      assert a[1..] <= b[1..] && b[1..][|a[1..]|..] == b[|a|..];
      WalkOn(Child(t, a[0]).node, a[1..], b[1..]);
    } else {
      assert b[0..] == b;
    }
  }

  // ---- decoding ----

  /** What reading some bits leads to: more bits are needed, the end marker was met, or a
    * null child was read. `out` are the symbols met on the way. */
  datatype Outcome = Running(node: Tree, out: seq<nat>) | Finished(out: seq<nat>) | Failed(out: seq<nat>) {
    function Prepend(s: nat): Outcome {
      match this
      case Running(node, out) => Running(node, [s] + out)
      case Finished(out) => Finished([s] + out)
      case Failed(out) => Failed([s] + out)
    }
  }

  /** Reads `bits` from `node` on, starting over at the root behind every leaf. */
  function Decode(root: Tree, node: Tree, bits: seq<bool>): Outcome
    decreases |bits|
  {
    if bits == [] then Running(node, [])
    else match Child(node, bits[0])
      case Null => Failed([])
      case At(next) =>
        if next.Node? then Decode(root, next, bits[1..])
        else if next.symbol == HUFFMAN_EOF then Finished([])
        else Decode(root, root, bits[1..]).Prepend(next.symbol)
  }

  /** A missing symbol has the empty code, as a look-up table filled with zeros gives it. */
  function CodeOf(codes: map<nat, seq<bool>>, s: nat): seq<bool> {
    if s in codes then codes[s] else []
  }

  function Encode(codes: map<nat, seq<bool>>, data: seq<nat>): seq<bool> {
    if data == [] then [] else CodeOf(codes, data[0]) + Encode(codes, data[1..])
  }

  function Kept(codes: map<nat, seq<bool>>, data: seq<nat>): seq<nat> {
    if data == [] then []
    else if data[0] in codes then [data[0]] + Kept(codes, data[1..])
    else Kept(codes, data[1..])
  }

  /** Reading a whole non-empty path to a leaf. */
  lemma {:induction false} DecodeLeaf(root: Tree, node: Tree, path: seq<bool>, rest: seq<bool>)
    requires node.Node? && Walk(node, path).At? && Walk(node, path).node.Leaf?
    ensures var s := Walk(node, path).node.symbol;
      Decode(root, node, path + rest)
        == if s == HUFFMAN_EOF then Finished([]) else Decode(root, root, rest).Prepend(s)
  {
    assert path != [];
    var next := Child(node, path[0]).node;
    assert (path + rest)[1..] == path[1..] + rest;
    if next.Node? {
      DecodeLeaf(root, next, path[1..], rest);
    } else {
      assert path[1..] == [];
      assert [] + rest == rest;
    }
  }

  lemma DecodeCode(root: Tree, s: nat, rest: seq<bool>)
    requires root.Node? && s in Codes(root, [])
    ensures Decode(root, root, Codes(root, [])[s] + rest)
      == if s == HUFFMAN_EOF then Finished([]) else Decode(root, root, rest).Prepend(s)
  {
    CodeLeadsToLeaf(root, [], s);
    var code := Codes(root, [])[s];
    assert code[0..] == code;
    DecodeLeaf(root, root, code, rest);
  }

  /** Whatever bits follow the end marker, decoding gives back those bytes that have a code. */
  lemma {:induction false} DecodeEncoded(root: Tree, data: seq<byte>, padding: seq<bool>)
    requires root.Node? && HUFFMAN_EOF in Codes(root, [])
    ensures var codes := Codes(root, []);
      Decode(root, root, Encode(codes, data) + (codes[HUFFMAN_EOF] + padding)) == Finished(Kept(codes, data))
  {
    hide *;
    var codes := Codes(root, []);
    var tail := codes[HUFFMAN_EOF] + padding;
    if data == [] {
      EncodeNothing(codes);
      assert [] + tail == tail;
      DecodeCode(root, HUFFMAN_EOF, padding);
    } else {
      DecodeEncoded(root, data[1..], padding);
      EncodeFirst(codes, data);
      IsByte(data[0]);
      DecodeFirst(root, codes, data[0], Encode(codes, data[1..]), tail, Kept(codes, data[1..]));
    }
  }

  lemma IsByte(b: byte)
    ensures b as nat != HUFFMAN_EOF
  {
  }

  /** One more symbol in front, or none if it has no code. */
  lemma DecodeFirst(root: Tree, codes: map<nat, seq<bool>>, s: nat, rest: seq<bool>, tail: seq<bool>, kept: seq<nat>)
    requires root.Node? && codes == Codes(root, []) && s != HUFFMAN_EOF && Decode(root, root, rest + tail) == Finished(kept)
    ensures Decode(root, root, CodeOf(codes, s) + rest + tail) == Finished(if s in codes then [s] + kept else kept)
  {
    hide Codes, Decode;
    assert CodeOf(codes, s) + rest + tail == CodeOf(codes, s) + (rest + tail);
    if s in codes {
      DecodeCode(root, s, rest + tail);
    } else {
      assert [] + (rest + tail) == rest + tail;
    }
  }

  lemma EncodeNothing(codes: map<nat, seq<bool>>)
    ensures Encode(codes, []) == [] && Kept(codes, []) == []
  {
  }

  lemma EncodeFirst(codes: map<nat, seq<bool>>, data: seq<nat>)
    requires data != []
    ensures Encode(codes, data) == CodeOf(codes, data[0]) + Encode(codes, data[1..])
    ensures CodeOf(codes, data[0]) == if data[0] in codes then codes[data[0]] else []
    ensures Kept(codes, data) == if data[0] in codes then [data[0]] + Kept(codes, data[1..]) else Kept(codes, data[1..])
  {
  }

  lemma {:induction false} KeptIsAll(codes: map<nat, seq<bool>>, data: seq<nat>)
    ensures |Kept(codes, data)| <= |data|
    ensures Kept(codes, data) == data <==> forall i | 0 <= i < |data| :: data[i] in codes
  {
    if data != [] {
      KeptIsAll(codes, data[1..]);
      if data[0] in codes {
        assert data == [data[0]] + data[1..];
        if Kept(codes, data) == data { assert Kept(codes, data[1..]) == Kept(codes, data)[1..] == data[1..]; }
        if Kept(codes, data[1..]) == data[1..] {
          forall i | 0 <= i < |data| ensures data[i] in codes { if i > 0 { assert data[i] == data[1..][i - 1]; } }
        }
        if forall i | 0 <= i < |data| :: data[i] in codes {
          assert forall i | 0 <= i < |data[1..]| :: data[1..][i] == data[i + 1];
        }
      } else {
        assert |Kept(codes, data)| < |data|;
      }
    }
  }

  /** Exactly when decoding gives the data back: the tree has at least two leaves and every
    * byte has a code. A tree of one leaf gives everything an empty code. */
  lemma {:induction false} RoundTripExactly(root: Tree, data: seq<byte>, padding: seq<bool>)
    requires HUFFMAN_EOF in Codes(root, [])
    ensures var codes := Codes(root, []);
      (Decode(root, root, Encode(codes, data) + (codes[HUFFMAN_EOF] + padding)) == Finished(data))
        <==> root.Node? && forall i | 0 <= i < |data| :: data[i] in codes
  {
    var codes := Codes(root, []);
    if root.Node? {
      DecodeEncoded(root, data, padding);
      KeptIsAll(codes, data);
    }
  }

  /** Decoding can stop between any two bits and go on later. */
  lemma {:induction false} DecodeResumes(root: Tree, node: Tree, a: seq<bool>, b: seq<bool>)
    ensures Decode(root, node, a + b) == match Decode(root, node, a)
      case Running(next, out) => Glue(out, Decode(root, next, b))
      case other => other
    decreases |a|
  {
    if a == [] {
      assert a + b == b;
      assert [] + Decode(root, node, b).out == Decode(root, node, b).out;
    } else {
      assert (a + b)[1..] == a[1..] + b;
      match Child(node, a[0])
      case Null =>
      case At(next) =>
        if next.Node? {
          DecodeResumes(root, next, a[1..], b);
        } else if next.symbol != HUFFMAN_EOF {
          DecodeResumes(root, root, a[1..], b);
          var first := Decode(root, root, a[1..]);
          if first.Running? {
            var second := Decode(root, first.node, b);
            assert [next.symbol] + (first.out + second.out) == ([next.symbol] + first.out) + second.out;
          }
        }
    }
  }

  function Glue(out: seq<nat>, o: Outcome): Outcome {
    match o
    case Running(node, more) => Running(node, out + more)
    case Finished(more) => Finished(out + more)
    case Failed(more) => Failed(out + more)
  }
}
