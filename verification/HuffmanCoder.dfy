/** The Huffman encoder and decoder over bit streams, and the round trip through both. The
  * decoder keeps its node between calls. */
module HuffmanCoder {
  import opened Bytes
  import opened BitStream
  import opened HuffmanTree

  // ---- the look-up table ----

  predicate KnownSymbols(t: Tree) {
    match t
    case Leaf(symbol, _) => symbol <= HUFFMAN_EOF
    case Node(left, right, _) => KnownSymbols(left) && KnownSymbols(right)
  }

  /** What a 32-bit register holds after the bits of a path have been shifted in. */
  function Register(path: seq<bool>): Word32 {
    Low(Zeros(32) + path, 32)
  }

  /** `(code << 1) | bit` */
  function ShiftIn(code: Word32, bit: bool): Word32 {
    Or(ShiftLeft(code, 1), Zeros(31) + [bit])
  }

  class EncodeLut {
    const bitCode: array<Word32>
    const numBits: array<nat>

    constructor ()
      ensures Valid() && fresh(bitCode) && fresh(numBits)
      ensures Represents(map[])
    {
      bitCode := new Word32[HUFFMAN_EOF + 1](_ => Zeros(32));
      numBits := new nat[HUFFMAN_EOF + 1](_ => 0);
      assert Register([]) == Zeros(32);
    }

    predicate Valid() {
      bitCode.Length == numBits.Length == HUFFMAN_EOF + 1
    }

    /** The entry of symbol `s` holds the path. */
    ghost predicate Stores(s: nat, path: seq<bool>)
      requires Valid() && s <= HUFFMAN_EOF
      reads bitCode, numBits
    {
      numBits[s] == |path| && bitCode[s] == Register(path)
    }

    /** The table is the map of codes; symbols without a code have no bits. */
    ghost predicate Represents(codes: map<nat, seq<bool>>)
      requires Valid()
      reads bitCode, numBits
    {
      forall s | 0 <= s <= HUFFMAN_EOF :: Stores(s, CodeOf(codes, s))
    }

    method Fill(node: Tree, level: nat, code: Word32, ghost prefix: seq<bool>)
      requires Valid() && KnownSymbols(node) && level == |prefix| && code == Register(prefix)
      modifies bitCode, numBits
      ensures forall s | 0 <= s <= HUFFMAN_EOF && s in Codes(node, prefix) :: Stores(s, Codes(node, prefix)[s])
      ensures forall s | 0 <= s <= HUFFMAN_EOF && s !in Codes(node, prefix) ::
        numBits[s] == old(numBits[s]) && bitCode[s] == old(bitCode[s])
      decreases node
    {
      match node
      case Leaf(symbol, _) =>
        bitCode[symbol], numBits[symbol] := code, level;
      case Node(left, right, _) =>
        Fill(left, level + 1, ShiftIn(code, false), prefix + [false]);
        Fill(right, level + 1, ShiftIn(code, true), prefix + [true]);
    }
  }

  // ---- encoding ----

  /** Every code a table can hold without losing its first bits. */
  predicate CodesFit(codes: map<nat, seq<bool>>) {
    forall s | s in codes :: |codes[s]| <= 32
  }

  lemma {:induction false} EncodeSnoc(codes: map<nat, seq<bool>>, data: seq<nat>, s: nat)
    ensures Encode(codes, data + [s]) == Encode(codes, data) + CodeOf(codes, s)
  {
    if data == [] {
      assert (data + [s])[1..] == [];
    } else {
      assert (data + [s])[1..] == data[1..] + [s];
      EncodeSnoc(codes, data[1..], s);
    }
  }

  lemma {:induction false} EncodeConcat(codes: map<nat, seq<bool>>, a: seq<nat>, b: seq<nat>)
    ensures Encode(codes, a + b) == Encode(codes, a) + Encode(codes, b)
  {
    if a == [] {
      assert a + b == b;
    } else {
      assert (a + b)[1..] == a[1..] + b;
      EncodeConcat(codes, a[1..], b);
    }
  }

  lemma NothingEncoded(codes: map<nat, seq<bool>>, data: seq<nat>, before: seq<bool>)
    ensures before + Encode(codes, data[..0]) == before
  {
  }

  lemma NextEncoded(codes: map<nat, seq<bool>>, data: seq<nat>, i: nat, before: seq<bool>)
    requires i < |data|
    ensures before + Encode(codes, data[..i + 1]) == before + Encode(codes, data[..i]) + CodeOf(codes, data[i])
    ensures |Encode(codes, data[..i])| + |CodeOf(codes, data[i])| <= |Encode(codes, data)|
  {
    hide Encode;
    EncodeSnoc(codes, data[..i], data[i]);
    assert data[..i + 1] == data[..i] + [data[i]];
    EncodeConcat(codes, data[..i + 1], data[i + 1..]);
    assert data[..i + 1] + data[i + 1..] == data;
  }

  class HuffmanEncoder {
    const lut: EncodeLut

    constructor (lut: EncodeLut)
      ensures this.lut == lut
    {
      this.lut := lut;
    }

    ghost predicate Uses(codes: map<nat, seq<bool>>)
      reads lut.bitCode, lut.numBits
    {
      lut.Valid() && lut.Represents(codes) && CodesFit(codes)
    }

    /** The stream and its buffer are not the table. */
    predicate Apart(stream: BitstreamOut) {
      stream.buffer as object != lut.bitCode && stream.buffer as object != lut.numBits
    }

    /** Appends the code of one symbol. */
    method AppendSymbol(s: nat, stream: BitstreamOut, ghost codes: map<nat, seq<bool>>)
      requires Uses(codes) && s <= HUFFMAN_EOF && stream.Valid() && Apart(stream)
      requires stream.Count() + |CodeOf(codes, s)| <= 8 * stream.buffer.Length
      modifies stream, stream.buffer
      ensures stream.Valid() && stream.All() == old(stream.All()) + CodeOf(codes, s)
    {
      stream.Append(lut.bitCode[s], lut.numBits[s]);
    }

    /** Appends the codes of all bytes; bytes without a code add nothing. */
    method Append(data: seq<byte>, stream: BitstreamOut, ghost codes: map<nat, seq<bool>>)
      requires Uses(codes) && stream.Valid() && Apart(stream)
      requires stream.Count() + |Encode(codes, data)| <= 8 * stream.buffer.Length
      modifies stream, stream.buffer
      ensures stream.Valid() && stream.All() == old(stream.All()) + Encode(codes, data)
    {
      hide Encode, BitstreamOut.All, Uses;
      NothingEncoded(codes, data, stream.All());
      stream.CountIs();
      for i := 0 to |data|
        invariant Uses(codes) && stream.Valid() && stream.Count() == |stream.All()|
        invariant stream.All() == old(stream.All()) + Encode(codes, data[..i])
      {
        NextEncoded(codes, data, i, old(stream.All()));
        AppendSymbol(data[i], stream, codes);
        stream.CountIs();
      }
      assert data[..|data|] == data;
    }

    /** Appends the end marker and flushes the stream. */
    method Close(stream: BitstreamOut, ghost codes: map<nat, seq<bool>>) returns (ghost padding: seq<bool>)
      requires Uses(codes) && stream.Valid() && Apart(stream)
      requires stream.Count() + |CodeOf(codes, HUFFMAN_EOF)| + 64 <= 8 * stream.buffer.Length
      modifies stream, stream.buffer
      ensures stream.Valid() && stream.bitPos == 0
      ensures stream.Written() == old(stream.All()) + CodeOf(codes, HUFFMAN_EOF) + padding
    {
      AppendSymbol(HUFFMAN_EOF, stream, codes);
      padding := stream.Close();
    }
  }

  // ---- decoding ----

  /** How a decoder that has read `out` so far goes on from its node. */
  function GoOn(root: Tree, node: Tree, out: seq<nat>, bits: seq<bool>): Outcome {
    Glue(out, Decode(root, node, bits))
  }

  lemma GoOnFirst(root: Tree, node: Tree, bits: seq<bool>)
    ensures GoOn(root, node, [], bits) == Decode(root, node, bits)
  {
    hide Decode;
    var outcome := Decode(root, node, bits);
    assert Glue([], outcome) == outcome;
  }

  lemma GoOnLast(root: Tree, node: Tree, out: seq<nat>)
    ensures GoOn(root, node, out, []) == Running(node, out)
  {
    assert out + [] == out;
  }

  lemma GoOnOneBit(root: Tree, node: Tree, out: seq<nat>, bits: seq<bool>)
    requires bits != []
    ensures GoOn(root, node, out, bits) == match Child(node, bits[0])
      case Null => Failed(out)
      case At(next) =>
        if next.Node? then GoOn(root, next, out, bits[1..])
        else if next.symbol == HUFFMAN_EOF then Finished(out)
        else GoOn(root, root, out + [next.symbol], bits[1..])
  {
    assert out + [] == out;
    match Child(node, bits[0])
    case Null =>
    case At(next) =>
      if next.Leaf? && next.symbol != HUFFMAN_EOF {
        var rest := Decode(root, root, bits[1..]);
        assert out + ([next.symbol] + rest.out) == (out + [next.symbol]) + rest.out;
      }
  }

  class HuffmanDecoder {
    const root: Tree
    var lastNode: Step

    constructor (tree: Tree)
      ensures root == tree && lastNode == At(tree)
    {
      root, lastNode := tree, At(tree);
    }

    /** Whether the end marker was met; the decoder then stays at its leaf. */
    predicate AtEnd()
      reads this
    {
      lastNode.At? && lastNode.node.Leaf? && lastNode.node.symbol == HUFFMAN_EOF
    }

    /** What a call has to leave behind for each outcome of the bits it was given. */
    ghost predicate Reports(outcome: Outcome, ok: bool, dst: seq<nat>)
      reads this
    {
      match outcome
      case Running(node, out) => ok && dst == out && lastNode == At(node)
      case Finished(out) => ok && dst == out && AtEnd()
      case Failed(out) => !ok && dst == out && lastNode == Null
    }

    /** Reads all words of the stream, going on where the last call stopped. */
    method Append(stream: BitstreamIn) returns (ok: bool, dst: seq<nat>)
      requires stream.tail <= |stream.data| && lastNode.At?
      modifies this`lastNode, stream`tail
      ensures Reports(Decode(root, old(lastNode).node, Bits(stream.data[old(stream.tail)..])), ok, dst)
    {
      hide Bits, GoOn, Decode, Codes;
      ghost var words := stream.data[stream.tail..];
      ghost var all, outcome := Bits(words), Decode(root, lastNode.node, Bits(words));
      dst := [];
      assert all[0..] == all;
      GoOnFirst(root, lastNode.node, all);
      var numWords := stream.GetNumReadableWords();
      for k := 0 to numWords
        invariant stream.tail == old(stream.tail) + k && lastNode.At? && GoOn(root, lastNode.node, dst, all[8 * k..]) == outcome
      {
        var value := stream.GetWord();
        for i := 0 to 8
          invariant stream.tail == old(stream.tail) + k + 1
          invariant lastNode.At? && GoOn(root, lastNode.node, dst, all[8 * k + i..]) == outcome
        {
          BitAt(words, k, i);
          GoOnOneBit(root, lastNode.node, dst, all[8 * k + i..]);
          assert all[8 * k + i..][1..] == all[8 * k + (i + 1)..];
          var bit := BitsOf(value)[i];
          lastNode := Child(lastNode.node, bit);
          if lastNode == Null { return false, dst; }
          if lastNode.node.Leaf? {
            if lastNode.node.symbol == HUFFMAN_EOF {
              stream.Reset();
              return true, dst;
            }
            dst := dst + [lastNode.node.symbol];
            lastNode := At(root);
          }
        }
        assert 8 * k + 8 == 8 * (k + 1);
      }
      assert all[8 * numWords..] == [];
      GoOnLast(root, lastNode.node, dst);
      ok := true;
    }
  }

  // ---- the pipeline ----

  /** The table of a tree. */
  method MakeLut(root: Tree) returns (lut: EncodeLut)
    requires KnownSymbols(root)
    ensures fresh(lut) && fresh(lut.bitCode) && fresh(lut.numBits)
    ensures lut.Valid() && lut.Represents(Codes(root, []))
  {
    lut := new EncodeLut();
    assert Register([]) == Zeros(32);
    lut.Fill(root, 0, Zeros(32), []);
    forall s | 0 <= s <= HUFFMAN_EOF ensures lut.Stores(s, CodeOf(Codes(root, []), s)) {
      assert CodeOf(map[], s) == [];
    }
  }

  /** Hands over the complete words written so far and rewinds. */
  method TakeWords(stream: BitstreamOut) returns (words: seq<byte>)
    requires stream.Valid()
    modifies stream`head
    ensures stream.Valid() && stream.head == 0 && Bits(words) + stream.All() == old(stream.All())
  {
    words := stream.buffer[..stream.head];
    stream.Rewind();
    assert stream.All() == stream.Unwritten();
  }

  /** Encodes chunk by chunk, handing over the complete words after each, then closes. The
    * buffer must have room for any one chunk. */
  method Compress(root: Tree, chunks: seq<seq<byte>>, buffer: array<byte>) returns (packed: seq<byte>, ghost padding: seq<bool>)
    requires KnownSymbols(root) && CodesFit(Codes(root, []))
    requires 64 + 32 + 64 <= 8 * buffer.Length
    requires forall i | 0 <= i < |chunks| :: 64 + |Encode(Codes(root, []), chunks[i])| <= 8 * buffer.Length
    modifies buffer
    ensures Bits(packed)
      == Encode(Codes(root, []), Join(chunks)) + (CodeOf(Codes(root, []), HUFFMAN_EOF) + padding)
  {
    ghost var codes := Codes(root, []);
    var lut := MakeLut(root);
    var encoder := new HuffmanEncoder(lut);
    var stream := new BitstreamOut(buffer);
    packed := [];
    for i := 0 to |chunks|
      invariant fresh(stream) && stream.Valid() && stream.buffer == buffer && stream.head == 0
      invariant encoder.Uses(codes) && encoder.Apart(stream)
      invariant Bits(packed) + stream.All() == Encode(codes, Join(chunks[..i]))
    {
      hide Encode, Bits, BitstreamOut.All, HuffmanEncoder.Uses;
      JoinNext(codes, chunks, i);
      packed := CompressChunk(encoder, stream, packed, chunks[i], codes);
    }
    assert chunks[..|chunks|] == chunks;
    ghost var before, eof := stream.All(), CodeOf(codes, HUFFMAN_EOF);
    padding := encoder.Close(stream, codes);
    BitsConcat(packed, stream.buffer[..stream.head]);
    Regroup(Bits(packed), before, eof, padding);
    packed := packed + stream.buffer[..stream.head];
  }

  lemma Regroup(a: seq<bool>, b: seq<bool>, c: seq<bool>, d: seq<bool>)
    ensures a + (b + c + d) == (a + b) + (c + d)
    ensures a + (b + c) == (a + b) + c
  {
  }

  /** Encodes one chunk and hands over the complete words. */
  method CompressChunk(encoder: HuffmanEncoder, stream: BitstreamOut, packed0: seq<byte>, chunk: seq<byte>,
      ghost codes: map<nat, seq<bool>>)
    returns (packed: seq<byte>)
    requires encoder.Uses(codes) && encoder.Apart(stream) && stream.Valid() && stream.head == 0
    requires 64 + |Encode(codes, chunk)| <= 8 * stream.buffer.Length
    modifies stream, stream.buffer
    ensures encoder.Uses(codes) && stream.Valid() && stream.head == 0
    ensures Bits(packed) + stream.All() == Bits(packed0) + old(stream.All()) + Encode(codes, chunk)
  {
    ghost var before := stream.All();
    encoder.Append(chunk, stream, codes);
    Regroup(Bits(packed0), before, Encode(codes, chunk), []);
    var words := TakeWords(stream);
    BitsConcat(packed0, words);
    Regroup(Bits(packed0), Bits(words), stream.All(), []);
    packed := packed0 + words;
  }

  lemma JoinNext(codes: map<nat, seq<bool>>, chunks: seq<seq<byte>>, i: nat)
    requires i < |chunks|
    ensures Encode(codes, Join(chunks[..i + 1])) == Encode(codes, Join(chunks[..i])) + Encode(codes, chunks[i])
  {
    assert chunks[..i + 1][..i] == chunks[..i];
    EncodeConcat(codes, Join(chunks[..i]), chunks[i]);
  }

  /** Decodes piece by piece until the end marker, a failure, or the last piece. */
  method Decompress(root: Tree, pieces: seq<seq<byte>>) returns (outcome: Outcome)
    ensures outcome == Decode(root, root, Bits(Join(pieces)))
  {
    var decoder := new HuffmanDecoder(root);
    var stream := new BitstreamIn();
    outcome := Running(root, []);
    for i := 0 to |pieces|
      invariant fresh(decoder) && fresh(stream) && decoder.root == root
      invariant outcome.Running? && decoder.lastNode == At(outcome.node) && (root.Node? ==> outcome.node.Node?)
      invariant outcome == Decode(root, root, Bits(Join(pieces[..i])))
    {
      assert pieces[..i + 1][..i] == pieces[..i];
      BitsConcat(Join(pieces[..i]), pieces[i]);
      DecodeResumes(root, root, Bits(Join(pieces[..i])), Bits(pieces[i]));
      stream.Wrap(pieces[i]);
      assert stream.data[0..] == stream.data;
      var ok, dst := decoder.Append(stream);
      RunningIsInner(root, outcome.node, Bits(pieces[i]));
      if !ok || (root.Node? && decoder.AtEnd()) {
        EndsEarly(root, pieces, i);
        return if ok then Finished(outcome.out + dst) else Failed(outcome.out + dst);
      }
      outcome := Running(decoder.lastNode.node, outcome.out + dst);
    }
    assert pieces[..|pieces|] == pieces;
  }

  /** A decoder that needs more bits does not stand at a leaf. */
  lemma {:induction false} RunningIsInner(root: Tree, node: Tree, bits: seq<bool>)
    requires root.Node? ==> node.Node?
    ensures root.Node? && Decode(root, node, bits).Running? ==> Decode(root, node, bits).node.Node?
    ensures root.Leaf? ==> !Decode(root, root, bits).Finished?
    decreases |bits|
  {
    if root.Node? && bits != [] && Child(node, bits[0]).At? {
      var next := Child(node, bits[0]).node;
      RunningIsInner(root, if next.Node? then next else root, bits[1..]);
    }
  }

  /** Once decoding has ended, later pieces do not matter. */
  lemma {:induction false} EndsEarly(root: Tree, pieces: seq<seq<byte>>, i: nat)
    requires i < |pieces| && !Decode(root, root, Bits(Join(pieces[..i + 1]))).Running?
    ensures Decode(root, root, Bits(Join(pieces))) == Decode(root, root, Bits(Join(pieces[..i + 1])))
  {
    if |pieces| == i + 1 {
      assert pieces[..i + 1] == pieces;
    } else {
      var init := pieces[..|pieces| - 1];
      assert init[..i + 1] == pieces[..i + 1];
      EndsEarly(root, init, i);
      BitsConcat(Join(init), pieces[|pieces| - 1]);
      DecodeResumes(root, root, Bits(Join(init)), Bits(pieces[|pieces| - 1]));
    }
  }

  /** Encoding in any chunks and decoding in any pieces gives back exactly the data, stopping
    * at the end marker whatever the padding bits are, if the tree has at least two leaves,
    * a code for every byte and for the end marker, and no code longer than 32 bits. */
  method RoundTrip(root: Tree, chunks: seq<seq<byte>>, buffer: array<byte>, sizes: seq<nat>) returns (outcome: Outcome)
    requires KnownSymbols(root) && CodesFit(Codes(root, []))
    requires 64 + 32 + 64 <= 8 * buffer.Length
    requires forall i | 0 <= i < |chunks| :: 64 + |Encode(Codes(root, []), chunks[i])| <= 8 * buffer.Length
    requires HUFFMAN_EOF in Codes(root, [])
    modifies buffer
    ensures outcome == Finished(Join(chunks))
      <==> (root.Node? && forall i | 0 <= i < |Join(chunks)| :: Join(chunks)[i] in Codes(root, []))
  {
    var packed, padding := Compress(root, chunks, buffer);
    var pieces := Cut(packed, sizes);
    outcome := Decompress(root, pieces);
    RoundTripExactly(root, Join(chunks), padding);
  }

  /** Cuts bytes into pieces of the given sizes, the rest last. */
  method Cut(bytes: seq<byte>, sizes: seq<nat>) returns (pieces: seq<seq<byte>>)
    ensures Join(pieces) == bytes
  {
    pieces := [];
    var at := 0;
    for i := 0 to |sizes|
      invariant 0 <= at <= |bytes| && Join(pieces) == bytes[..at]
    {
      var next := Min(at + sizes[i], |bytes|);
      assert (pieces + [bytes[at..next]])[..|pieces|] == pieces;
      pieces := pieces + [bytes[at..next]];
      at := next;
    }
    assert (pieces + [bytes[at..]])[..|pieces|] == pieces;
    pieces := pieces + [bytes[at..]];
  }
}
