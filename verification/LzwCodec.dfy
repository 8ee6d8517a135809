/** The 16-bit code stream, the encoder that walks the tree from byte to byte and keeps its node
  * between calls, the decoder that looks numbers up, and all of them together, on words. */
module LzwCodec {
  import opened Bytes
  import opened Buffers
  import opened LzwWords
  import opened LzwDict

  // ---- the code stream ----

  /** 16-bit words as they lie in memory, low byte first. */
  function BytesOf(codes: seq<nat>): (r: seq<byte>)
    requires forall i | 0 <= i < |codes| :: codes[i] < LZW_DICT_SIZE
    ensures |r| == 2 * |codes|
  {
    if codes == [] then []
    else
      var last := codes[|codes| - 1];
      assert last < LZW_DICT_SIZE;
      var low: byte, high: byte := last % 256, last / 256;
      BytesOf(codes[..|codes| - 1]) + [low, high]
  }

  function CodeAt(data: seq<byte>, k: nat): nat
    requires 2 * k + 1 < |data|
  {
    data[2 * k] as nat + 256 * (data[2 * k + 1] as nat)
  }

  lemma {:induction false} BytesHoldCodes(codes: seq<nat>, k: nat)
    requires k < |codes| && forall i | 0 <= i < |codes| :: codes[i] < LZW_DICT_SIZE
    ensures CodeAt(BytesOf(codes), k) == codes[k]
  {
    if k < |codes| - 1 {
      BytesHoldCodes(codes[..|codes| - 1], k);
    }
  }

  class LzwDictStream {
    const buffer: array<nat>
    var tail: nat

    /** Half as many bytes are allocated as are asked for: a quarter as many codes. */
    constructor (size: nat)
      ensures Valid() && Codes() == [] && fresh(buffer) && buffer.Length == size / 2 / 2
    {
      buffer := new nat[size / 2 / 2](_ => 0);
      tail := 0;
    }

    predicate Valid()
      reads this, buffer
    {
      tail <= buffer.Length && forall i | 0 <= i < tail :: buffer[i] < LZW_DICT_SIZE
    }

    function Codes(): (c: seq<nat>)
      requires Valid()
      reads this, buffer
      ensures |c| == tail && forall i | 0 <= i < |c| :: c[i] < LZW_DICT_SIZE
    {
      buffer[..tail]
    }

    method Append(data: nat)
      requires Valid() && tail < buffer.Length
      modifies this, buffer
      ensures Valid() && Codes() == old(Codes()) + [data % LZW_DICT_SIZE]
    {
      buffer[tail] := data % LZW_DICT_SIZE;
      tail := tail + 1;
    }

    method GetNumUsed() returns (n: nat)
      requires Valid()
      ensures n == |BytesOf(Codes())|
    {
      n := tail * 2;
    }

    method GetData() returns (data: seq<byte>)
      requires Valid()
      ensures data == BytesOf(Codes())
    {
      data := BytesOf(buffer[..tail]);
    }

    method Clear()
      requires Valid()
      modifies this
      ensures Valid() && Codes() == []
    {
      tail := 0;
    }
  }

  // ---- encoder ----

  /** What a stream holds and what is matched after some data. */
  function After(d: Dict, codes: seq<nat>, current: seq<byte>, data: seq<byte>): Coded
    requires Trie(d) && Matched(d, current)
  {
    var r := Encode(d, current, data);
    Coded(codes + r.codes, r.current)
  }

  lemma NothingYet(d: Dict, codes: seq<nat>, current: seq<byte>)
    requires Trie(d) && Matched(d, current)
    ensures After(d, codes, current, []) == Coded(codes, current)
  {
    assert codes + [] == codes;
  }

  lemma NextByte(d: Dict, codes: seq<nat>, current: seq<byte>, data: seq<byte>, b: byte)
    requires Trie(d) && Matched(d, current)
    ensures var r := After(d, codes, current, data);
      && Matched(d, r.current)
      && After(d, codes, current, data + [b])
        == var s := EncodeByte(d, r.current, b); Coded(r.codes + s.codes, s.current)
  {
    hide Trie, EncodeByte;
    var r := Encode(d, current, data);
    assert (data + [b])[..|data|] == data;
    var s := EncodeByte(d, r.current, b);
    assert codes + (r.codes + s.codes) == codes + r.codes + s.codes;
  }

  class LzwDictEncoder {
    const dict: LzwDict
    const rootNode: LzwTreeNode
    var curNode: LzwTreeNode

    constructor (dict: LzwDict)
      requires dict.Valid()
      ensures this.dict == dict && Valid() && Current() == []
    {
      dict.RootIs();
      this.dict := dict;
      rootNode := dict.encTree;
      curNode := dict.encTree;
    }

    /** The word matched so far. */
    ghost function Current(): seq<byte>
      reads this
    {
      curNode.word
    }

    ghost predicate Valid()
      reads this, dict, dict.dec, dict.nodeOf.Values
    {
      dict.Valid() && rootNode == dict.encTree && Current() in dict.nodeOf && dict.nodeOf[Current()] == curNode
    }

    /** Takes the longest words that match; the last may still grow with the next call. */
    method Append(data: seq<byte>, dst: LzwDictStream)
      requires Valid() && dst.Valid() && dst.tail + |data| <= dst.buffer.Length
      modifies this`curNode, dst, dst.buffer
      ensures Valid() && dst.Valid()
      ensures Trie(dict.View()) && Matched(dict.View(), old(Current()))
      ensures Coded(dst.Codes(), Current()) == After(dict.View(), old(dst.Codes()), old(Current()), data)
    {
      hide Encode, Matched, Trie, After, EncodeByte, LzwDict.Valid, LzwDict.View, Valid, LzwDictStream.Codes, Current;
      ghost var d := dict.View();
      IsMatched();
      NothingYet(d, dst.Codes(), Current());
      for i := 0 to |data|
        invariant Valid() && dst.Valid() && dst.tail <= old(dst.tail) + i && Trie(d) && Matched(d, old(Current()))
        invariant Coded(dst.Codes(), Current()) == After(d, old(dst.Codes()), old(Current()), data[..i])
        invariant dict.View() == d
      {
        NextByte(d, old(dst.Codes()), old(Current()), data[..i], data[i]);
        assert data[..i + 1] == data[..i] + [data[i]];
        AppendByte(data[i], dst);
      }
      assert data[..|data|] == data;
    }

    lemma IsMatched()
      requires Valid()
      ensures Trie(dict.View()) && Matched(dict.View(), Current())
    {
      dict.InIndex(Current());
    }

    method AppendByte(b: byte, dst: LzwDictStream)
      requires Valid() && dst.Valid() && dst.tail < dst.buffer.Length
      modifies this`curNode, dst, dst.buffer
      ensures Valid() && dst.Valid() && dst.tail <= old(dst.tail) + 1
      ensures Matched(dict.View(), old(Current()))
      ensures var r := EncodeByte(dict.View(), old(Current()), b);
        Current() == r.current && dst.Codes() == old(dst.Codes()) + r.codes
    {
      hide LzwDict.Tree, LzwDict.Linked, LzwDict.View, LzwDict.Valid, Trie;
      IsMatched();
      Steps(b);
      if b !in curNode.nodes {
        PutOut(dst);
      }
      Descend(b);
    }

    /** The node has a child for a byte exactly when the word so far goes on with it. */
    lemma Steps(b: byte)
      requires Valid()
      ensures b in curNode.nodes <==> Current() + [b] in dict.View().index
      ensures b in curNode.nodes ==> Current() + [b] in dict.nodeOf
      ensures [] + [b] == [b] && [b] in dict.nodeOf
      ensures Current() == [] ==> b in curNode.nodes
    {
      hide LzwDict.Tree, LzwDict.Linked, LzwDict.Index, Trie;
      dict.At(Current(), b);
      dict.InIndex(Current() + [b]);
      dict.RootIs();
      dict.Known(b);
    }

    /** The number of the word matched so far, and back to the root. */
    method PutOut(dst: LzwDictStream)
      requires Valid() && dst.Valid() && dst.tail < dst.buffer.Length && Current() != []
      modifies this`curNode, dst, dst.buffer
      ensures Valid() && dst.Valid() && Current() == [] && old(Current()) in dict.View().index
      ensures dst.Codes() == old(dst.Codes()) + [dict.View().index[old(Current())]]
    {
      hide LzwDict.Tree, LzwDict.Linked, LzwDict.Index, Trie;
      dict.RootIs();
      dict.NodeIdx(Current());
      dst.Append(curNode.idx);
      curNode := rootNode;
    }

    method Descend(b: byte)
      requires Valid() && Current() + [b] in dict.nodeOf
      modifies this`curNode
      ensures Valid() && Current() == old(Current()) + [b]
    {
      hide LzwDict.Tree, LzwDict.Linked, LzwDict.Index, Trie, LzwDict.View;
      dict.At(Current(), b);
      dict.WordOf(Current() + [b]);
      curNode := curNode.nodes[b];
    }

    /** Puts out the word that is still pending. */
    method Close(dst: LzwDictStream)
      requires Valid() && dst.Valid() && dst.tail < dst.buffer.Length
      modifies this`curNode, dst, dst.buffer
      ensures Valid() && dst.Valid() && Current() == [] && Matched(dict.View(), old(Current()))
      ensures dst.Codes() == old(dst.Codes()) + Flush(dict.View(), old(Current()))
    {
      hide LzwDict.Tree, LzwDict.Linked, LzwDict.Index, Trie;
      IsMatched();
      dict.RootIs();
      if curNode != rootNode {
        PutOut(dst);
      }
    }
  }

  // ---- decoder ----

  class LzwDictDecoder {
    const dict: LzwDict

    constructor (dict: LzwDict)
      ensures this.dict == dict
    {
      this.dict := dict;
    }

    /** Looks up one word for every two bytes. The target must have room for 16 bytes each. */
    method Append(data: seq<byte>, db: DataBuffer, ghost codes: seq<nat>)
      requires dict.Valid() && |data| % 2 == 0 && db.Valid() && db.bufData as object != dict.dec
      requires forall i | 0 <= i < |codes| :: codes[i] < LZW_DICT_SIZE
      requires data == BytesOf(codes)
      requires db.bufUsed + LZW_WORD_LEN * |codes| <= db.bufSize < UINT31
      modifies db`bufUsed, db.bufData
      ensures db.Valid() && dict.Valid() && ValidCodes(dict.View(), codes)
      ensures db.Contents() == old(db.Contents()) + Decode(dict.View(), codes)
      ensures db.bufUsed <= old(db.bufUsed) + LZW_WORD_LEN * |codes| && dict.View() == old(dict.View())
    {
      hide LzwDict.Valid, LzwDict.Index, Trie, Decode;
      ghost var d := dict.View();
      dict.Size();
      var length := |data|;
      assert codes[..0] == [];
      DecodeNothing(d, db.Contents());
      var k := 0;
      while length > 0
        invariant 0 <= k <= |codes| && length == |data| - 2 * k && dict.Valid() && dict.View() == d && db.Valid()
        invariant db.bufUsed <= old(db.bufUsed) + LZW_WORD_LEN * k
        invariant db.Contents() == old(db.Contents()) + Decode(d, codes[..k])
      {
        BytesHoldCodes(codes, k);
        DecodeNext(d, old(db.Contents()), codes, k);
        WordsAreShort(d, codes[k]);
        var curIdx := CodeAt(data, k);
        length := length - 2;
        AppendWord(curIdx, db);
        k := k + 1;
      }
      assert codes[..|codes|] == codes;
    }

    lemma WordsAreShort(d: Dict, code: nat)
      requires dict.Valid() && d == dict.View() && code < LZW_DICT_SIZE
      ensures |d.dec| == LZW_DICT_SIZE && |d.dec[code]| <= LZW_WORD_LEN
    {
      hide LzwDict.Tree, LzwDict.Index;
      if d.dec[code] != [] { assert d.dec[code] in d.index; }
    }

    method AppendWord(curIdx: nat, db: DataBuffer)
      requires dict.Valid() && curIdx < LZW_DICT_SIZE && db.Valid() && db.bufData as object != dict.dec
      requires |dict.View().dec| == LZW_DICT_SIZE && db.bufUsed + |dict.View().dec[curIdx]| <= db.bufSize < UINT31
      modifies db`bufUsed, db.bufData
      ensures dict.Valid() && dict.View() == old(dict.View()) && db.Valid()
      ensures db.Contents() == old(db.Contents()) + dict.View().dec[curIdx]
    {
      hide LzwDict.Tree, Trie;
      var word := dict.dec[curIdx];
      db.AppendUnsafe(word);
    }
  }

  lemma DecodeNothing(d: Dict, before: seq<byte>)
    ensures before + Decode(d, []) == before
  {
  }

  lemma DecodeNext(d: Dict, before: seq<byte>, codes: seq<nat>, k: nat)
    requires |d.dec| == LZW_DICT_SIZE && k < |codes| && forall i | 0 <= i < |codes| :: codes[i] < LZW_DICT_SIZE
    ensures ValidCodes(d, codes) && before + Decode(d, codes[..k + 1]) == before + Decode(d, codes[..k]) + d.dec[codes[k]]
  {
    assert codes[..k + 1][..k] == codes[..k];
  }
}
