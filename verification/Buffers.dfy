/** The FIFO byte buffer that network data waits in. */
module Buffers {
  import opened Bytes

  // ---- searching ----

  predicate OccursAt(s: seq<byte>, pattern: seq<byte>, i: nat) {
    i + |pattern| <= |s| && s[i..i + |pattern|] == pattern
  }

  /** The first occurrence at or behind `from`, or -1. */
  function FindFrom(s: seq<byte>, pattern: seq<byte>, from: nat): (r: int)
    ensures r == -1 || (from <= r && OccursAt(s, pattern, r))
    ensures forall i: nat | from <= i && (r == -1 || i < r) :: !OccursAt(s, pattern, i)
    decreases |s| - from
  {
    if from + |pattern| > |s| then -1
    else if OccursAt(s, pattern, from) then from
    else FindFrom(s, pattern, from + 1)
  }

  /** The first occurrence, or -1. */
  function Find(s: seq<byte>, pattern: seq<byte>): (r: int)
    ensures r == -1 || (0 <= r && OccursAt(s, pattern, r))
    ensures forall i: nat | r == -1 || i < r :: !OccursAt(s, pattern, i)
  {
    FindFrom(s, pattern, 0)
  }

  /** What was found stays found where it is when more bytes arrive. */
  lemma FindExtends(s: seq<byte>, pattern: seq<byte>, more: seq<byte>)
    requires Find(s, pattern) >= 0
    ensures Find(s + more, pattern) == Find(s, pattern)
  {
    hide Find;
    var r: nat, q := Find(s, pattern), Find(s + more, pattern);
    assert (s + more)[r..r + |pattern|] == s[r..r + |pattern|];
    assert OccursAt(s + more, pattern, r);
    assert 0 <= q <= r;
    assert (s + more)[q..q + |pattern|] == s[q..q + |pattern|];
    assert OccursAt(s, pattern, q);
  }

  // ---- the buffer ----

  class DataBuffer {
    var bufData: array<byte>
    var bufSize: nat
    var bufUsed: nat

    constructor ()
      ensures Valid() && fresh(bufData) && Contents() == []
    {
      bufData := new byte[0];
      bufSize, bufUsed := 0, 0;
    }

    predicate Valid()
      reads this
    {
      bufUsed <= bufSize == bufData.Length && bufUsed < UINT31
    }

    function Contents(): (c: seq<byte>)
      requires Valid()
      reads this, bufData
      ensures |c| == bufUsed
    {
      bufData[..bufUsed]
    }

    method Append(data: seq<byte>)
      requires Valid() && bufUsed + |data| < UINT31
      modifies this, bufData
      ensures Valid() && Contents() == old(Contents()) + data
      ensures bufData == old(bufData) || fresh(bufData)
    {
      EnsureSize(bufUsed + |data|);
      forall i | 0 <= i < |data| {
        bufData[bufUsed + i] := data[i];
      }
      bufUsed := bufUsed + |data|;
      assert bufData[..bufUsed] == old(Contents()) + data;
    }

    /** The caller made sure that there is room. */
    method AppendUnsafe(data: seq<byte>)
      requires Valid() && bufUsed + |data| <= bufSize && bufUsed + |data| < UINT31
      modifies this`bufUsed, bufData
      ensures Valid() && Contents() == old(Contents()) + data
    {
      forall i | 0 <= i < |data| {
        bufData[bufUsed + i] := data[i];
      }
      bufUsed := bufUsed + |data|;
      assert bufData[..bufUsed] == old(Contents()) + data;
    }

    /** Room for that many bytes; twice as much is allocated when the buffer has to grow. */
    method EnsureSize(neededSize: nat)
      requires Valid() && bufUsed <= neededSize < UINT31
      modifies this
      ensures Valid() && neededSize <= bufSize && Contents() == old(Contents())
      ensures bufData == old(bufData) || fresh(bufData)
    {
      if neededSize < bufSize { return; }
      Resize(2 * neededSize);
    }

    method Resize(newSize: nat)
      requires Valid() && bufUsed <= newSize
      modifies this
      ensures Valid() && bufSize == newSize && Contents() == old(Contents())
      ensures fresh(bufData)
    {
      var kept, was := Min(bufSize, newSize), bufData;
      var moved := new byte[newSize](_ => 0);
      forall i | 0 <= i < kept {
        moved[i] := was[i];
      }
      bufData, bufSize := moved, newSize;
      assert bufData[..bufUsed] == old(Contents());
    }

    /** The index of the first occurrence or -1 if there is none. */
    method IndexOf(search: seq<byte>) returns (pos: int)
      requires Valid() && search != []
      ensures pos == Find(Contents(), search)
    {
      if bufUsed < |search| { return -1; }
      var i := 0;
      while i <= bufUsed - |search|
        invariant i <= bufUsed - |search| + 1
        invariant forall k: nat | k < i :: !OccursAt(Contents(), search, k)
      {
        var found := MatchesAt(i, search);
        if found { return i; }
        i := i + 1;
      }
      return -1;
    }

    method MatchesAt(i: nat, search: seq<byte>) returns (found: bool)
      requires Valid() && search != [] && i + |search| <= bufUsed
      ensures found <==> OccursAt(Contents(), search, i)
    {
      ghost var here := Contents()[i..i + |search|];
      if bufData[i] != search[0] {
        assert here[0] != search[0];
        return false;
      }
      for j := 1 to |search|
        invariant here[..j] == search[..j]
      {
        if bufData[i + j] != search[j] {
          assert here[j] != search[j];
          return false;
        }
        assert here[..j + 1] == here[..j] + [here[j]];
      }
      return true;
    }

    /** The first bytes, at most as many as there are. */
    method Get(numBytes: nat) returns (data: seq<byte>)
      requires Valid()
      ensures data == Contents()[..Min(numBytes, bufUsed)]
    {
      var n := if numBytes > bufUsed then bufUsed else numBytes;
      data := bufData[..n];
    }

    /** Drops bytes that were got before: the rest moves to the front. */
    method Remove(length: nat)
      requires Valid() && length <= bufUsed
      modifies this`bufUsed, bufData
      ensures Valid() && Contents() == old(Contents())[length..]
    {
      if length == 0 { return; }
      if length == bufUsed {
        bufUsed := 0;
      } else {
        forall i | 0 <= i < bufUsed - length {
          bufData[i] := bufData[i + length];
        }
        bufUsed := bufUsed - length;
        assert Contents() == old(Contents())[length..];
      }
    }
  }
}
