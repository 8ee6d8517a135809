/** A dictionary learned from anything, and data in chunks sent with it. */
module LzwPipeline {
  import opened Bytes
  import opened Buffers
  import opened LzwWords
  import opened LzwDict
  import opened LzwCodec

  /** What was sent so far comes from the data so far. */
  ghost predicate Sent(d: Dict, data: seq<byte>, codes: seq<nat>, current: seq<byte>) {
    Trie(d) && Encode(d, [], data) == Coded(codes, current)
  }

  lemma SentNext(d: Dict, data: seq<byte>, codes: seq<nat>, current: seq<byte>, chunk: seq<byte>, more: seq<nat>, next: seq<byte>)
    requires Sent(d, data, codes, current)
    requires Matched(d, current) && After(d, [], current, chunk) == Coded(more, next)
    ensures Sent(d, data + chunk, codes + more, next)
  {
    hide Trie;
    EncodeConcat(d, [], data, chunk);
    assert [] + Encode(d, current, chunk).codes == Encode(d, current, chunk).codes;
  }

  lemma SentFits(d: Dict, data: seq<byte>, codes: seq<nat>, current: seq<byte>)
    requires Sent(d, data, codes, current)
    ensures ValidCodes(d, codes) && Matched(d, current) && |codes| <= |data|
  {
    hide Trie;
    EncodeDecodes(d, [], data);
  }

  lemma SentAll(d: Dict, data: seq<byte>, codes: seq<nat>, current: seq<byte>)
    requires Sent(d, data, codes, current)
    ensures Matched(d, current) && ValidCodes(d, codes + Flush(d, current)) && Decode(d, codes + Flush(d, current)) == data
  {
    hide Trie;
    RoundTrip(d, data);
  }

  /** One dictionary `d` on both sides; the numbers sent so far stand for the data so far, and
    * the target holds what they mean. */
  ghost predicate Ready(encoder: LzwDictEncoder, decoder: LzwDictDecoder, stream: LzwDictStream, db: DataBuffer,
      d: Dict, data: seq<byte>, codes: seq<nat>)
    reads encoder, encoder.dict, encoder.dict.dec, encoder.dict.nodeOf.Values, stream, stream.buffer, db, db.bufData
  {
    && decoder.dict == encoder.dict && encoder.Valid() && encoder.dict.View() == d
    && stream.Valid() && stream.Codes() == [] && db.Valid() && db.bufData as object != encoder.dict.dec
    && Sent(d, data, codes, encoder.Current()) && ValidCodes(d, codes) && db.Contents() == Decode(d, codes)
    && db.bufUsed <= LZW_WORD_LEN * |codes|
  }

  /** Encodes one chunk, and decodes what that put out. */
  method SendChunk(encoder: LzwDictEncoder, decoder: LzwDictDecoder, stream: LzwDictStream, db: DataBuffer, chunk: seq<byte>,
      ghost d: Dict, ghost data: seq<byte>, ghost codes: seq<nat>)
    returns (ghost now: seq<nat>)
    requires Ready(encoder, decoder, stream, db, d, data, codes)
    requires |chunk| <= stream.buffer.Length && LZW_WORD_LEN * (|data| + |chunk|) <= db.bufSize < UINT31
    modifies encoder`curNode, stream, stream.buffer, db`bufUsed, db.bufData
    ensures Ready(encoder, decoder, stream, db, d, data + chunk, now)
  {
    hide LzwDict.Valid, LzwDict.View, Encode, Decode, ValidCodes, Sent, After, Matched, Trie, BytesOf;
    SentFits(d, data, codes, encoder.Current());
    ghost var current := encoder.Current();
    encoder.Append(chunk, stream);
    ghost var more := stream.Codes();
    SentNext(d, data, codes, current, chunk, more, encoder.Current());
    now := codes + more;
    SentFits(d, data + chunk, now, encoder.Current());
    Deliver(encoder, decoder, stream, db, d, codes);
  }

  /** Hands the stream over to the decoder and clears it. */
  method Deliver(encoder: LzwDictEncoder, decoder: LzwDictDecoder, stream: LzwDictStream, db: DataBuffer,
      ghost d: Dict, ghost codes: seq<nat>)
    requires decoder.dict == encoder.dict && encoder.Valid() && encoder.dict.View() == d
    requires stream.Valid() && db.Valid() && db.bufData as object != encoder.dict.dec
    requires ValidCodes(d, codes) && db.Contents() == Decode(d, codes) && db.bufUsed <= LZW_WORD_LEN * |codes|
    requires LZW_WORD_LEN * (|codes| + stream.tail) <= db.bufSize < UINT31
    modifies stream, db`bufUsed, db.bufData
    ensures encoder.Valid() && encoder.dict.View() == d && stream.Valid() && stream.Codes() == [] && db.Valid()
    ensures var now := codes + old(stream.Codes());
      && ValidCodes(d, now) && db.Contents() == Decode(d, now) && db.bufUsed <= LZW_WORD_LEN * |now|
  {
    hide LzwDict.Valid, LzwDict.View, Encode, Decode, Matched, Trie, BytesOf;
    var used := stream.GetNumUsed();
    var data := stream.GetData();
    ghost var more := stream.Codes();
    assert data[..used] == data;
    decoder.Append(data[..used], db, more);
    DecodeConcat(d, codes, more);
    stream.Clear();
  }

  lemma NothingSent(d: Dict)
    requires Trie(d)
    ensures Sent(d, [], [], []) && ValidCodes(d, []) && Decode(d, []) == []
  {
  }

  /** A dictionary learned from any pieces of text; any data in any chunks, encoded, closed and
    * decoded with it, comes back as it was. */
  method Transmit(learned: seq<seq<byte>>, chunks: seq<seq<byte>>, size: nat) returns (out: seq<byte>)
    requires size >= 4 && forall i | 0 <= i < |chunks| :: 4 * |chunks[i]| <= size
    requires LZW_WORD_LEN * (|Join(chunks)| + 1) < UINT31
    ensures out == Join(chunks)
  {
    hide LzwDict.Valid, LzwDict.View, Ready;
    var dict := Learned(learned);
    out := Send(dict, chunks, size);
  }

  /** The same with a given dictionary. */
  method Send(dict: LzwDict, chunks: seq<seq<byte>>, size: nat) returns (out: seq<byte>)
    requires dict.Valid() && size >= 4 && forall i | 0 <= i < |chunks| :: 4 * |chunks[i]| <= size
    requires LZW_WORD_LEN * (|Join(chunks)| + 1) < UINT31
    ensures out == Join(chunks)
  {
    hide LzwDict.Valid, LzwDict.View, LzwDictEncoder.Valid, LzwDictStream.Codes, Encode, Decode, ValidCodes, Sent, Trie, Join;
    ghost var d := dict.View();
    IsTrie(dict);
    NothingSent(d);
    var stream := new LzwDictStream(size);
    var db := new DataBuffer();
    db.Resize(LZW_WORD_LEN * (|Join(chunks)| + 1));
    var encoder := new LzwDictEncoder(dict);
    var decoder := new LzwDictDecoder(dict);
    assert Ready(encoder, decoder, stream, db, d, [], []);
    ghost var codes := SendChunks(encoder, decoder, stream, db, chunks, d);
    out := Finish(encoder, decoder, stream, db, d, Join(chunks), codes);
  }

  method SendChunks(encoder: LzwDictEncoder, decoder: LzwDictDecoder, stream: LzwDictStream, db: DataBuffer,
      chunks: seq<seq<byte>>, ghost d: Dict)
    returns (ghost codes: seq<nat>)
    requires Ready(encoder, decoder, stream, db, d, [], [])
    requires forall i | 0 <= i < |chunks| :: |chunks[i]| <= stream.buffer.Length
    requires LZW_WORD_LEN * |Join(chunks)| <= db.bufSize < UINT31
    modifies encoder`curNode, stream, stream.buffer, db`bufUsed, db.bufData
    ensures Ready(encoder, decoder, stream, db, d, Join(chunks), codes)
  {
    hide Ready;
    codes := [];
    for i := 0 to |chunks|
      invariant Ready(encoder, decoder, stream, db, d, Join(chunks[..i]), codes)
    {
      JoinBounded(chunks, i);
      codes := SendChunk(encoder, decoder, stream, db, chunks[i], d, Join(chunks[..i]), codes);
    }
    assert chunks[..|chunks|] == chunks;
  }

  method Finish(encoder: LzwDictEncoder, decoder: LzwDictDecoder, stream: LzwDictStream, db: DataBuffer,
      ghost d: Dict, ghost data: seq<byte>, ghost codes: seq<nat>)
    returns (out: seq<byte>)
    requires Ready(encoder, decoder, stream, db, d, data, codes)
    requires stream.buffer.Length > 0 && LZW_WORD_LEN * (|data| + 1) <= db.bufSize < UINT31
    modifies encoder`curNode, stream, stream.buffer, db`bufUsed, db.bufData
    ensures out == data
  {
    hide LzwDict.Valid, LzwDict.View, Encode, Decode, ValidCodes, Sent, Matched, Trie, BytesOf;
    SentFits(d, data, codes, encoder.Current());
    SentAll(d, data, codes, encoder.Current());
    encoder.Close(stream);
    Deliver(encoder, decoder, stream, db, d, codes);
    out := db.Get(db.bufUsed);
  }

  method Learned(learned: seq<seq<byte>>) returns (dict: LzwDict)
    ensures dict.Valid() && fresh(dict) && fresh(dict.dec) && fresh(dict.nodeOf.Values)
    ensures dict.View() == LearnAll(Initial(), Join(learned))
  {
    hide LzwDict.Valid, LzwDict.View, Learn, Initial;
    dict := new LzwDict();
    HasSize(dict);
    for i := 0 to |learned|
      invariant dict.Valid() && fresh(dict) && fresh(dict.dec) && fresh(dict.nodeOf.Values)
      invariant |Initial().dec| == LZW_DICT_SIZE && dict.View() == LearnAll(Initial(), Join(learned[..i]))
    {
      JoinBounded(learned, i);
      LearnConcat(Initial(), Join(learned[..i]), learned[i]);
      dict.Append(learned[i]);
    }
    assert learned[..|learned|] == learned;
  }

  lemma HasSize(dict: LzwDict)
    requires dict.Valid()
    ensures |dict.View().dec| == LZW_DICT_SIZE
  {
    dict.Size();
  }

  lemma IsTrie(dict: LzwDict)
    requires dict.Valid()
    ensures Trie(dict.View())
  {
  }
}
