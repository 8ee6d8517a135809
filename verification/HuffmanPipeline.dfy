/** From counted data to the shortest code and back. */
module HuffmanPipeline {
  import opened Bytes
  import opened HuffmanTree
  import opened HuffmanCost
  import opened HuffmanGreedy
  import opened HuffmanBuilder
  import opened HuffmanCoder

  // ---- the cost of a tree is the length of what it encodes ----

  /** Bits taken by the counted symbols below `n`. */
  function CodeCost(codes: map<nat, seq<bool>>, counter: seq<nat>, n: nat): nat
    requires n <= |counter|
  {
    if n == 0 then 0 else CodeCost(codes, counter, n - 1) + |CodeOf(codes, n - 1)| * counter[n - 1]
  }

  /** Codes of two halves that share no symbol. */
  lemma {:induction false} CodeCostSplit(a: map<nat, seq<bool>>, b: map<nat, seq<bool>>, counter: seq<nat>, n: nat)
    requires n <= |counter| && forall s | s in a :: s !in b
    ensures CodeCost(a + b, counter, n) == CodeCost(a, counter, n) + CodeCost(b, counter, n)
  {
    if n > 0 {
      CodeCostSplit(a, b, counter, n - 1);
      var s := n - 1;
      assert |CodeOf(a + b, s)| == |CodeOf(a, s)| + |CodeOf(b, s)|;
      assert |CodeOf(a, s)| == 0 || |CodeOf(b, s)| == 0;
    }
  }

  lemma {:induction false} CodeCostOfOne(s: nat, code: seq<bool>, counter: seq<nat>, n: nat)
    requires n <= |counter|
    ensures CodeCost(map[s := code], counter, n) == if s < n then |code| * counter[s] else 0
  {
    if n > 0 { CodeCostOfOne(s, code, counter, n - 1); }
  }

  lemma {:induction false} CountedOnce(counter: seq<nat>, n: nat, p: (nat, nat))
    requires n <= |counter|
    ensures Counted(counter, n)[p] <= 1
    ensures p in Counted(counter, n) ==> p.0 < n && p.1 == counter[p.0]
  {
    if n > 0 { CountedOnce(counter, n - 1, p); }
  }

  /** No symbol stands in both halves of a tree over counted symbols. */
  lemma HalvesShareNothing(left: Tree, right: Tree, counter: seq<nat>, n: nat, s: nat)
    requires n <= |counter| && multiset(Leaves(left)) + multiset(Leaves(right)) <= Counted(counter, n)
    ensures !(s in Symbols(left) && s in Symbols(right))
  {
    hide Leaves, Counted;
    SymbolsOfLeaves(left, s);
    SymbolsOfLeaves(right, s);
    if s in Symbols(left) && s in Symbols(right) {
      var v: nat :| (s, v) in multiset(Leaves(left));
      var w: nat :| (s, w) in multiset(Leaves(right));
      CountedOnce(counter, n, (s, v));
      CountedOnce(counter, n, (s, w));
    }
  }

  lemma {:induction false} CostOfSubtree(t: Tree, prefix: seq<bool>, counter: seq<nat>, n: nat)
    requires n <= |counter| && multiset(Leaves(t)) <= Counted(counter, n)
    ensures Dot(Weights(t), Depths(t, |prefix|)) == CodeCost(Codes(t, prefix), counter, n)
  {
    hide Counted, CodeCost;
    match t
    case Leaf(s, w) =>
      assert (s, w) in multiset(Leaves(t));
      CountedOnce(counter, n, (s, w));
      CodeCostOfOne(s, prefix, counter, n);
      assert Weights(t)[1..] == [] && Depths(t, |prefix|)[1..] == [];
      assert Dot(Weights(t), Depths(t, |prefix|)) == w * |prefix|;
    case Node(left, right, _) =>
      SplitCost(t, prefix, counter, n);
      CostOfSubtree(left, prefix + [false], counter, n);
      CostOfSubtree(right, prefix + [true], counter, n);
  }

  lemma SplitCost(t: Tree, prefix: seq<bool>, counter: seq<nat>, n: nat)
    requires t.Node? && n <= |counter| && multiset(Leaves(t)) <= Counted(counter, n)
    ensures multiset(Leaves(t.left)) + multiset(Leaves(t.right)) <= Counted(counter, n)
    ensures Dot(Weights(t), Depths(t, |prefix|))
      == Dot(Weights(t.left), Depths(t.left, |prefix| + 1)) + Dot(Weights(t.right), Depths(t.right, |prefix| + 1))
    ensures CodeCost(Codes(t, prefix), counter, n)
      == CodeCost(Codes(t.left, prefix + [false]), counter, n) + CodeCost(Codes(t.right, prefix + [true]), counter, n)
  {
    hide Counted, CodeCost, Dot;
    var a, b := Codes(t.left, prefix + [false]), Codes(t.right, prefix + [true]);
    DotConcat(Weights(t.left), Weights(t.right), Depths(t.left, |prefix| + 1), Depths(t.right, |prefix| + 1));
    assert multiset(Leaves(t)) == multiset(Leaves(t.left)) + multiset(Leaves(t.right));
    forall s | s in a ensures s !in b {
      HalvesShareNothing(t.left, t.right, counter, n, s);
      CodesCoverLeaves(t.left, prefix + [false]);
      CodesCoverLeaves(t.right, prefix + [true]);
    }
    CodeCostSplit(a, b, counter, n);
  }

  /** One more occurrence of a symbol costs its code. */
  lemma {:induction false} CodeCostOneMore(codes: map<nat, seq<bool>>, counter: seq<nat>, n: nat, s: nat)
    requires n <= |counter| && s < |counter|
    ensures CodeCost(codes, counter[s := counter[s] + 1], n)
      == CodeCost(codes, counter, n) + if s < n then |CodeOf(codes, s)| else 0
  {
    if n > 0 {
      CodeCostOneMore(codes, counter, n - 1, s);
      if s == n - 1 {
        var k := |CodeOf(codes, s)|;
        assert k * (counter[s] + 1) == k * counter[s] + k;
      }
    }
  }

  /** How often every symbol occurs, the end marker once. */
  function CountsOf(data: seq<byte>): (c: seq<nat>)
    ensures |c| == 257 && c[256] == 1 && forall i | 0 <= i < 256 :: c[i] == multiset(data)[i as byte]
  {
    seq(257, i requires 0 <= i < 257 => if i == 256 then 1 else multiset(data)[i as byte])
  }

  lemma {:induction false} CodeCostOfData(codes: map<nat, seq<bool>>, data: seq<byte>)
    ensures CodeCost(codes, CountsOf(data), 257) == |Encode(codes, data)| + |CodeOf(codes, HUFFMAN_EOF)|
  {
    if data == [] {
      NoCounts(codes, CountsOf(data), 256);
    } else {
      var rest := data[1..];
      CodeCostOfData(codes, rest);
      CodeCostOneMore(codes, CountsOf(rest), 257, data[0]);
      hide CodeCost, CodeOf;
      CountOneMore(data);
    }
  }

  lemma CountOneMore(data: seq<byte>)
    requires data != []
    ensures CountsOf(data) == CountsOf(data[1..])[data[0] := CountsOf(data[1..])[data[0]] + 1]
  {
    assert data == [data[0]] + data[1..];
  }

  lemma {:induction false} NoCounts(codes: map<nat, seq<bool>>, counter: seq<nat>, n: nat)
    requires n <= |counter| && forall i | 0 <= i < n :: counter[i] == 0
    ensures CodeCost(codes, counter, n) == 0
  {
    if n > 0 { NoCounts(codes, counter, n - 1); }
  }

  /** The cost of a tree over the counts of some data is the number of bits that encoding it
    * with the end marker takes. */
  lemma EncodedLength(t: Tree, data: seq<byte>)
    requires multiset(Leaves(t)) == Counted(CountsOf(data), 257)
    ensures Cost(t) == |Encode(Codes(t, []), data)| + |CodeOf(Codes(t, []), HUFFMAN_EOF)|
  {
    CostOfSubtree(t, [], CountsOf(data), 257);
    CodeCostOfData(Codes(t, []), data);
  }

  /** The built tree encodes the counted data in the fewest bits any tree over its symbols
    * needs. */
  lemma ShortestEncoding(root: Tree, data: seq<byte>, t: Tree)
    requires Sum(CountsOf(data), 257) < UINT32 && Built(root, CountsOf(data))
    requires multiset(Leaves(t)) == multiset(Leaves(root))
    ensures |Encode(Codes(root, []), data)| + |CodeOf(Codes(root, []), HUFFMAN_EOF)|
      <= |Encode(Codes(t, []), data)| + |CodeOf(Codes(t, []), HUFFMAN_EOF)|
  {
    NoTreeIsCheaper(root, CountsOf(data), t);
    EncodedLength(root, data);
    EncodedLength(t, data);
  }

  // ---- counting, coding and decoding together ----

  lemma {:induction false} ShortCodes(codes: map<nat, seq<bool>>, data: seq<nat>)
    requires CodesFit(codes)
    ensures |Encode(codes, data)| <= 32 * |data|
  {
    if data != [] { ShortCodes(codes, data[1..]); }
  }

  lemma {:induction false} SumOfCounts(data: seq<byte>, n: nat)
    requires n <= 256
    ensures Sum(CountsOf(data), n) <= |data|
  {
    if data == [] {
      NothingCounted(CountsOf(data), n);
    } else {
      var rest := data[1..];
      assert data == [data[0]] + rest;
      SumOfCounts(rest, n);
      assert CountsOf(data) == CountsOf(rest)[data[0] := CountsOf(rest)[data[0]] + 1];
      SumOneMore(CountsOf(rest), n, data[0]);
    }
  }

  lemma {:induction false} NothingCounted(counter: seq<nat>, n: nat)
    requires n <= |counter| && forall i | 0 <= i < n :: counter[i] == 0
    ensures Sum(counter, n) == 0
  {
    if n > 0 { NothingCounted(counter, n - 1); }
  }

  lemma {:induction false} SumOneMore(counter: seq<nat>, n: nat, s: nat)
    requires n <= |counter| && s < |counter|
    ensures Sum(counter[s := counter[s] + 1], n) == Sum(counter, n) + if s < n then 1 else 0
  {
    if n > 0 { SumOneMore(counter, n - 1, s); }
  }

  /** A builder that starts with a count of one for every byte. */
  function Raised(counter: seq<nat>): (r: seq<nat>)
    requires |counter| == 257
    ensures |r| == 257
  {
    seq(257, i requires 0 <= i < 257 => if i == 256 then counter[i] else counter[i] + 1)
  }

  lemma {:induction false} SumOfRaised(counter: seq<nat>, n: nat)
    requires |counter| == 257 && n <= 256
    ensures Sum(Raised(counter), n) == Sum(counter, n) + n
  {
    if n > 0 { SumOfRaised(counter, n - 1); }
  }

  /** Counts a sample and builds the tree. */
  method Train(ensureAllBytes: bool, sample: seq<byte>) returns (root: Tree, ghost counter: seq<nat>)
    requires |sample| + 257 < 9227465
    ensures counter == if ensureAllBytes then Raised(CountsOf(sample)) else CountsOf(sample)
    ensures Sum(counter, 257) < 9227465 && Built(root, counter)
  {
    hide Built, Sum, Counted;
    var builder := new Builder(ensureAllBytes);
    ghost var start := builder.counter[..];
    builder.Append(sample);
    counter := builder.counter[..];
    assert forall i | 0 <= i < 256 :: counter[i] == start[i] + CountsOf(sample)[i] by {
      forall i | 0 <= i < 256 ensures counter[i] == start[i] + CountsOf(sample)[i] {
      }
    }
    assert counter == if ensureAllBytes then Raised(CountsOf(sample)) else CountsOf(sample);
    SumOfSample(ensureAllBytes, sample);
    root := builder.GetTree();
  }

  lemma SumOfSample(ensureAllBytes: bool, sample: seq<byte>)
    ensures Sum(if ensureAllBytes then Raised(CountsOf(sample)) else CountsOf(sample), 257) <= |sample| + 257
  {
    SumOfCounts(sample, 256);
    SumOfRaised(CountsOf(sample), 256);
  }

  /** Which bytes a trained tree can encode. */
  lemma TrainedCodes(root: Tree, ensureAllBytes: bool, sample: seq<byte>, counter: seq<nat>)
    requires counter == if ensureAllBytes then Raised(CountsOf(sample)) else CountsOf(sample)
    requires multiset(Leaves(root)) == Counted(counter, 257)
    ensures KnownSymbols(root) && HUFFMAN_EOF in Codes(root, [])
    ensures forall b: byte :: b in Codes(root, []) <==> ensureAllBytes || b in sample
    ensures root.Node? <==> ensureAllBytes || sample != []
  {
    hide Leaves, Counted, Codes;
    CodesOfCounted(root, counter);
    forall b: byte ensures b in Codes(root, []) <==> ensureAllBytes || b in sample {
      assert b in sample <==> multiset(sample)[b] > 0;
    }
    if ensureAllBytes || sample != [] {
      var b: byte := if ensureAllBytes then 0 else sample[0];
      TwoSymbols(root, b, HUFFMAN_EOF);
    } else {
      OnlyMarker(root);
    }
  }

  lemma {:induction false} OnlyMarker(root: Tree)
    requires multiset(Leaves(root)) == Counted(CountsOf([]), 257)
    ensures root.Leaf?
  {
    NothingInCounted(CountsOf([]), 256);
    assert |multiset(Leaves(root))| == |Leaves(root)| == 1;
  }

  lemma {:induction false} NothingInCounted(counter: seq<nat>, n: nat)
    requires n <= |counter| && forall i | 0 <= i < n :: counter[i] == 0
    ensures Counted(counter, n) == multiset{}
  {
    if n > 0 { NothingInCounted(counter, n - 1); }
  }

  /** Training on any sample of fewer than Fib(35) - 257 bytes, then encoding in any chunks and
    * decoding in any pieces, gives the data back exactly when every byte of it was counted
    * and something was; with all bytes ensured it always does. */
  method TrainedRoundTrip(ensureAllBytes: bool, sample: seq<byte>, chunks: seq<seq<byte>>,
      buffer: array<byte>, sizes: seq<nat>)
    returns (outcome: Outcome)
    requires |sample| + 257 < 9227465
    requires 64 + 32 + 64 <= 8 * buffer.Length
    requires forall i | 0 <= i < |chunks| :: 64 + 32 * |chunks[i]| <= 8 * buffer.Length
    modifies buffer
    ensures outcome == Finished(Join(chunks))
      <==> ensureAllBytes || (sample != [] && forall b | b in Join(chunks) :: b in sample)
  {
    hide Leaves, Counted, Codes, Sum, Join, CountsOf, Raised, CodesFit;
    var root, counter := Train(ensureAllBytes, sample);
    TrainedCodes(root, ensureAllBytes, sample, counter);
    CodesStayShort(root, counter);
    forall i | 0 <= i < |chunks| ensures 64 + |Encode(Codes(root, []), chunks[i])| <= 8 * buffer.Length {
      ShortCodes(Codes(root, []), chunks[i]);
    }
    outcome := RoundTrip(root, chunks, buffer, sizes);
  }

  // ---- the predicted size ----

  /** The bits of the symbols below `n`, where each product keeps its low 32 bits. */
  function PredictedBits(codes: map<nat, seq<bool>>, counter: seq<nat>, n: nat): nat
    requires n <= |counter|
  {
    if n == 0 then 0
    else PredictedBits(codes, counter, n - 1) + |CodeOf(codes, n - 1)| * counter[n - 1] % UINT32
  }

  /** They are the bits that encoding takes exactly when no product leaves 32 bits. */
  lemma {:induction false} PredictedExactly(codes: map<nat, seq<bool>>, counter: seq<nat>, n: nat)
    requires n <= |counter|
    ensures PredictedBits(codes, counter, n) <= CodeCost(codes, counter, n)
    ensures PredictedBits(codes, counter, n) == CodeCost(codes, counter, n)
      <==> forall i | 0 <= i < n :: |CodeOf(codes, i)| * counter[i] < UINT32
  {
    if n > 0 {
      PredictedExactly(codes, counter, n - 1);
      LowPart(|CodeOf(codes, n - 1)| * counter[n - 1]);
    }
  }

  lemma LowPart(product: nat)
    ensures product % UINT32 <= product && (product % UINT32 == product <==> product < UINT32)
  {
  }

  /** And so it is while all counts add up to less than 9227465. */
  lemma SmallCountsPredicted(root: Tree, counter: seq<nat>)
    requires |counter| == 257 && Built(root, counter) && Sum(counter, 257) < 9227465
    ensures PredictedBits(Codes(root, []), counter, 256) == CodeCost(Codes(root, []), counter, 256)
  {
    hide Built, Leaves, Counted, Codes, Sum, CodeOf;
    CodesStayShort(root, counter);
    var codes := Codes(root, []);
    forall i | 0 <= i < 256 ensures |CodeOf(codes, i)| * counter[i] < UINT32 {
      ProductFits(codes, counter, i);
    }
    PredictedExactly(codes, counter, 256);
  }

  lemma ProductFits(codes: map<nat, seq<bool>>, counter: seq<nat>, i: nat)
    requires |counter| == 257 && CodesFit(codes) && Sum(counter, 257) < 9227465 && i < 256
    ensures |CodeOf(codes, i)| * counter[i] < UINT32
  {
    SumGrows(counter, i + 1, 257);
    Below(|CodeOf(codes, i)|, counter[i]);
  }

  lemma Below(k: nat, c: nat)
    requires k <= 32
    ensures k * c <= 32 * c
  {
  }

  lemma {:induction false} SumGrows(counter: seq<nat>, m: nat, n: nat)
    requires m <= n <= |counter|
    ensures Sum(counter, m) <= Sum(counter, n)
  {
    if m < n { SumGrows(counter, m, n - 1); }
  }

  /** The predicted bits of all bytes, without the end marker, rounded up to bytes. */
  method GetCompressedSize(builder: Builder) returns (size: nat, ghost root: Tree)
    requires builder.Valid()
    ensures Built(root, builder.counter[..])
    ensures var bits := PredictedBits(Codes(root, []), builder.counter[..], 256); 8 * size < bits + 8 <= 8 * size + 8
  {
    hide Leaves, Counted, Codes, Sum, Built;
    var tree := builder.GetTree();
    root := tree;
    assert KnownSymbols(root) by { BuiltIsKnown(root, builder.counter[..]); }
    var lut := MakeLut(tree);
    var compressedBits := SumBits(lut, builder, root);
    size := (compressedBits + 7) / 8;
  }

  method SumBits(lut: EncodeLut, builder: Builder, ghost root: Tree) returns (compressedBits: nat)
    requires builder.Valid() && lut.Valid() && lut.Represents(Codes(root, []))
    ensures compressedBits == PredictedBits(Codes(root, []), builder.counter[..], 256)
  {
    hide Codes, CodeOf;
    ghost var codes, counts := Codes(root, []), builder.counter[..];
    compressedBits := 0;
    for i := 0 to 256
      invariant compressedBits == PredictedBits(codes, counts, i) <= i * UINT32
    {
      assert lut.Stores(i, CodeOf(codes, i));
      compressedBits := (compressedBits + lut.numBits[i] * builder.counter[i] % UINT32) % UINT64;
    }
  }

  lemma BuiltIsKnown(root: Tree, counter: seq<nat>)
    requires |counter| == 257 && Built(root, counter)
    ensures KnownSymbols(root)
  {
    CodesOfCounted(root, counter);
  }
}
