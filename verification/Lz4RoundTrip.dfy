/** Decoding what a valid block serializes to gives back what the block means. */
module Lz4RoundTrip {
  import opened Bytes
  import opened Lz4Format
  import opened Lz4Decoder

  lemma {:induction false} ReadRunOfRunBytes(source: seq<byte>, ip: nat, end: int, length: nat, n: nat)
    requires end <= |source| && ip + |RunBytes(n)| <= end
    requires source[ip..ip + |RunBytes(n)|] == RunBytes(n)
    ensures ReadRun(source, ip, end, length) == (length + n, ip + |RunBytes(n)|)
    decreases n
  {
    var run := RunBytes(n);
    assert source[ip] == source[ip..ip + |run|][0] == run[0];
    if n >= 255 {
      assert source[ip + 1..ip + |run|] == run[1..] == RunBytes(n - 255);
      ReadRunOfRunBytes(source, ip + 1, end, length + 255, n - 255);
    }
  }

  lemma ReadLengthOfExtension(source: seq<byte>, ip: nat, end: int, n: nat)
    requires end <= |source| && ip <= |source| && ip + |Extension(n)| <= |source|
    requires n >= MASK ==> ip + |Extension(n)| <= end
    requires Has(source, ip, Extension(n))
    ensures ReadLength(source, Nibble(n), ip, end) == (n, ip + |Extension(n)|)
  {
    if n >= MASK { ReadRunOfRunBytes(source, ip, end, MASK, n - MASK); }
  }

  /** Where the parts of a serialized sequence stand. */
  lemma SequenceParts(source: seq<byte>, ip: nat, s: Sequence)
    requires Has(source, ip, SequenceBytes(s))
    ensures |SequenceBytes(s)| == 1 + |Extension(|s.literals|)| + |s.literals| + 2 + |Extension(s.extra)|
    ensures ip + |SequenceBytes(s)| <= |source|
    ensures source[ip] == 16 * Nibble(|s.literals|) + Nibble(s.extra)
    ensures Has(source, ip + 1, Extension(|s.literals|))
    ensures var from := ip + 1 + |Extension(|s.literals|)|;
      && Has(source, from, s.literals)
      && Has(source, from + |s.literals|, OffsetBytes(s.offset))
      && Has(source, from + |s.literals| + 2, Extension(s.extra))
  {
    hide Extension, Nibble;
    var token: seq<byte> := [16 * Nibble(|s.literals|) + Nibble(s.extra)];
    var run, offset, more := Extension(|s.literals|), OffsetBytes(s.offset), Extension(s.extra);
    HasConcat(source, ip, token, (run + s.literals) + (offset + more));
    HasConcat(source, ip + 1, run + s.literals, offset + more);
    HasConcat(source, ip + 1, run, s.literals);
    HasConcat(source, ip + 1 + |run| + |s.literals|, offset, more);
    assert source[ip] == source[ip..ip + 1][0];
  }

  /** At `ip` the decoder reads sequence `s` and goes on at `next`. */
  ghost predicate Reads(source: seq<byte>, ip: nat, size: nat, limit: nat, s: Sequence, next: nat) {
    exists from: nat {:trigger Matching(from, from + |s.literals|, s.offset, s.Count(), next)} | ip < from && from + |s.literals| < next < |source| ::
      && ReadStep(source, ip, size, limit) == Matching(from, from + |s.literals|, s.offset, s.Count(), next)
      && source[from..from + |s.literals|] == s.literals
  }

  lemma ReadStepIs(source: seq<byte>, ip: nat, size: nat, limit: nat, s: Sequence, from: nat, next: nat)
    requires Follows(s, size) && LeavesRoom(s, size, limit)
    requires ip < from && from + |s.literals| + 2 <= next && next + 1 + LASTLITERALS <= |source|
    requires ReadLength(source, source[ip] / 16, ip + 1, |source|) == (|s.literals|, from)
    requires ReadOffset(source, from + |s.literals|) == s.offset
    requires ReadLength(source, source[ip] % 16, from + |s.literals| + 2, |source| - (LASTLITERALS + 1)) == (s.extra, next)
    ensures ReadStep(source, ip, size, limit) == Matching(from, from + |s.literals|, s.offset, s.Count(), next)
  {
    hide ReadLength, ReadOffset;
  }

  lemma ReadsOffset(source: seq<byte>, at: nat, offset: nat)
    requires Has(source, at, OffsetBytes(offset)) && offset <= MAX_DISTANCE
    ensures at + 2 <= |source|
    ensures ReadOffset(source, at) == offset
  {
    assert source[at] == source[at..at + 2][0] && source[at + 1] == source[at..at + 2][1];
  }

  lemma ReadSequence(source: seq<byte>, ip: nat, size: nat, limit: nat, s: Sequence)
    requires Follows(s, size) && LeavesRoom(s, size, limit)
    requires Has(source, ip, SequenceBytes(s)) && ip + |SequenceBytes(s)| + 1 + LASTLITERALS <= |source|
    ensures Reads(source, ip, size, limit, s, ip + |SequenceBytes(s)|)
  {
    hide Extension, RunBytes, SequenceBytes, OffsetBytes, Nibble, Has, ReadRun, ReadLength, ReadOffset, ReadStep, Reads;
    SequenceParts(source, ip, s);
    NibbleParts(|s.literals|, s.extra);
    var from, next := ip + 1 + |Extension(|s.literals|)|, ip + |SequenceBytes(s)|;
    var at := from + |s.literals|;
    ReadLengthOfExtension(source, ip + 1, |source|, |s.literals|);
    ReadsOffset(source, at, s.offset);
    ReadLengthOfExtension(source, at + 2, |source| - (LASTLITERALS + 1), s.extra);
    ReadStepIs(source, ip, size, limit, s, from, next);
    WitnessReads(source, ip, size, limit, s, from, next);
  }

  lemma NibbleParts(m: nat, n: nat)
    ensures (16 * Nibble(m) + Nibble(n)) / 16 == Nibble(m) && (16 * Nibble(m) + Nibble(n)) % 16 == Nibble(n)
  {
  }

  lemma WitnessReads(source: seq<byte>, ip: nat, size: nat, limit: nat, s: Sequence, from: nat, next: nat)
    requires ip < from && from + |s.literals| < next < |source| && Has(source, from, s.literals)
    requires ReadStep(source, ip, size, limit) == Matching(from, from + |s.literals|, s.offset, s.Count(), next)
    ensures Reads(source, ip, size, limit, s, next)
  {
    hide ReadStep;
  }

  lemma ReadLast(source: seq<byte>, ip: nat, size: nat, limit: nat, last: seq<byte>)
    requires Has(source, ip, LastBytes(last)) && ip + |LastBytes(last)| == |source|
    requires size + |last| <= limit
    ensures ReadStep(source, ip, size, limit) == Ending(|source| - |last|)
    ensures source[|source| - |last|..] == last
  {
    var n := |last|;
    var token: seq<byte> := [16 * Nibble(n)];
    HasConcat(source, ip, token, Extension(n) + last);
    HasConcat(source, ip + 1, Extension(n), last);
    assert source[ip] == source[ip..ip + 1][0];
    ReadLengthOfExtension(source, ip + 1, |source|, n);
  }

  /** One step of the decoder over a sequence it reads. */
  lemma DecodeOne(source: seq<byte>, ip: nat, data: seq<byte>, limit: nat, s: Sequence, next: nat)
    requires Reads(source, ip, |data|, limit, s, next) && Follows(s, |data|)
    ensures ip < next < |source|
    ensures Decode(source, ip, data, limit)
      == Decode(source, next, CopyMatch(data + s.literals, s.offset, s.Count()), limit)
  {
    hide ReadStep, CopyMatch;
  }

  lemma LastSequence(source: seq<byte>, before: Sequences, s: Sequence)
    requires SequencesBytes(Then(before, s)) <= source
    ensures SequencesBytes(before) <= source && Has(source, |SequencesBytes(before)|, SequenceBytes(s))
    ensures |SequencesBytes(Then(before, s))| == |SequencesBytes(before)| + |SequenceBytes(s)|
  {
    hide SequenceBytes;
    var ss, ip := SequencesBytes(Then(before, s)), |SequencesBytes(before)|;
    assert source[ip..ip + |SequenceBytes(s)|] == ss[ip..] == SequenceBytes(s);
    assert source[..ip] == ss[..ip] == SequencesBytes(before);
  }

  /** What comes of decoding behind the sequences `ss` comes of it from the start. */
  lemma {:induction false} DecodeFromStart(source: seq<byte>, ss: Sequences, limit: nat, o: Outcome)
    requires Valid(ss) && KeepsMargins(ss, limit)
    requires SequencesBytes(ss) <= source && |SequencesBytes(ss)| + 1 + LASTLITERALS <= |source|
    requires Decode(source, |SequencesBytes(ss)|, Expand(ss), limit) == o
    ensures Decode(source, 0, [], limit) == o
  {
    hide Decode, SequenceBytes, CopyMatch;
    match ss
    case Start =>
    case Then(before, s) =>
      LastSequence(source, before, s);
      DecodeLast(source, before, s, limit);
      DecodeFromStart(source, before, limit, o);
  }

  lemma DecodeLast(source: seq<byte>, before: Sequences, s: Sequence, limit: nat)
    requires Valid(Then(before, s)) && KeepsMargins(Then(before, s), limit)
    requires SequencesBytes(Then(before, s)) <= source && |SequencesBytes(Then(before, s))| + 1 + LASTLITERALS <= |source|
    ensures Decode(source, |SequencesBytes(before)|, Expand(before), limit)
      == Decode(source, |SequencesBytes(Then(before, s))|, Expand(Then(before, s)), limit)
  {
    hide *;
    LastSequence(source, before, s);
    LastExpands(before, s, limit);
    var ip := |SequencesBytes(before)|;
    ReadSequence(source, ip, TotalSize(before), limit, s);
    DecodeOne(source, ip, Expand(before), limit, s, ip + |SequenceBytes(s)|);
  }

  lemma LastExpands(before: Sequences, s: Sequence, limit: nat)
    requires Valid(Then(before, s)) && KeepsMargins(Then(before, s), limit)
    ensures Valid(before) && Follows(s, TotalSize(before)) && LeavesRoom(s, TotalSize(before), limit)
    ensures |Expand(before)| == TotalSize(before) && 1 <= s.offset <= |Expand(before) + s.literals|
    ensures Expand(Then(before, s)) == CopyMatch(Expand(before) + s.literals, s.offset, s.Count())
  {
  }

  lemma {:induction false} MarginsGrow(ss: Sequences, n: nat, limit: nat)
    requires KeepsMargins(ss, n) && n <= limit
    ensures KeepsMargins(ss, limit)
  {
    if ss.Then? { MarginsGrow(ss.before, n, limit); }
  }

  /** The round trip on the format: whatever output limit at least as large as the data
    * is given, decoding a serialized block returns exactly its meaning. */
  lemma DecompressedSerialized(b: Block, limit: nat)
    requires IsBlock(b) && |Meaning(b)| <= limit
    ensures Decompressed(Serialize(b), limit) == Decoded(Meaning(b))
  {
    hide SequencesBytes, LastBytes, ReadStep, CopyMatch, LeavesRoom, Follows, Decode;
    var ss, source := b.sequences, Serialize(b);
    MarginsGrow(ss, |Meaning(b)|, limit);
    LastDecodes(b, limit);
    if ss.Then? {
      RoomBehind(b);
      DecodeFromStart(source, ss, limit, Decoded(Meaning(b)));
    } else {
      NoSequences(ss);
    }
  }

  lemma NoSequences(ss: Sequences)
    requires ss.Start?
    ensures SequencesBytes(ss) == []
  {
  }

  /** What stands behind the last sequence is long enough. */
  lemma RoomBehind(b: Block)
    requires IsBlock(b) && b.sequences.Then?
    ensures |SequencesBytes(b.sequences)| + 1 + LASTLITERALS <= |Serialize(b)|
  {
    hide SequencesBytes;
  }

  lemma LastDecodes(b: Block, limit: nat)
    requires IsBlock(b) && |Meaning(b)| <= limit
    ensures var ss, source := b.sequences, Serialize(b);
      && |SequencesBytes(ss)| < |source| && SequencesBytes(ss) <= source
      && Decode(source, |SequencesBytes(ss)|, Expand(ss), limit) == Decoded(Meaning(b))
  {
    hide SequencesBytes, ReadStep, Expand;
    var ss, source := b.sequences, Serialize(b);
    ReadLast(source, |SequencesBytes(ss)|, TotalSize(ss), limit, b.last);
  }

  // ---- faulty sequences ----

  /** Where the decoder finds fault with a sequence whose literals are in order: right behind an offset
    * that is too large, or behind the length of a match that is too long. */
  function FaultAt(s: Sequence, size: nat, ip: nat, limit: nat): Option<nat> {
    if s.offset > size + |s.literals| then Some(ip + 1 + |Extension(|s.literals|)| + |s.literals| + 2)
    else if size + s.Size() + LASTLITERALS > limit then Some(ip + |SequenceBytes(s)|)
    else None
  }

  lemma FaultyStep(source: seq<byte>, ip: nat, size: nat, limit: nat, s: Sequence, from: nat, next: nat)
    requires size + |s.literals| + MFLIMIT <= limit && s.offset <= MAX_DISTANCE
    requires ip < from && from + |s.literals| + 2 <= next && next + 1 + LASTLITERALS <= |source|
    requires ReadLength(source, source[ip] / 16, ip + 1, |source|) == (|s.literals|, from)
    requires ReadOffset(source, from + |s.literals|) == s.offset
    requires ReadLength(source, source[ip] % 16, from + |s.literals| + 2, |source| - (LASTLITERALS + 1)) == (s.extra, next)
    ensures s.offset > size + |s.literals| ==> ReadStep(source, ip, size, limit) == Failing(from + |s.literals| + 2)
    ensures s.offset <= size + |s.literals| && size + s.Size() + LASTLITERALS > limit ==> ReadStep(source, ip, size, limit) == Failing(next)
  {
    hide ReadLength, ReadOffset;
  }

  lemma FaultySequence(source: seq<byte>, ip: nat, data: seq<byte>, limit: nat, s: Sequence)
    requires |data| + |s.literals| + MFLIMIT <= limit && s.offset <= MAX_DISTANCE && FaultAt(s, |data|, ip, limit).Some?
    requires Has(source, ip, SequenceBytes(s)) && ip + |SequenceBytes(s)| + 1 + LASTLITERALS <= |source|
    ensures ip < |source| && Decode(source, ip, data, limit) == Malformed(FaultAt(s, |data|, ip, limit).value)
  {
    hide Extension, RunBytes, SequenceBytes, OffsetBytes, Nibble, Has, ReadRun, ReadLength, ReadOffset, ReadStep;
    SequenceParts(source, ip, s);
    NibbleParts(|s.literals|, s.extra);
    var from, next := ip + 1 + |Extension(|s.literals|)|, ip + |SequenceBytes(s)|;
    var at := from + |s.literals|;
    ReadLengthOfExtension(source, ip + 1, |source|, |s.literals|);
    ReadsOffset(source, at, s.offset);
    ReadLengthOfExtension(source, at + 2, |source| - (LASTLITERALS + 1), s.extra);
    FaultyStep(source, ip, |data|, limit, s, from, next);
  }

  /** Behind any well-formed sequences, the first one with an offset beyond the data or a match beyond
    * the output is found, and where. */
  lemma FaultFound(ss: Sequences, s: Sequence, rest: seq<byte>, limit: nat)
    requires Valid(ss) && KeepsMargins(ss, limit) && |rest| > LASTLITERALS && s.offset <= MAX_DISTANCE
    requires TotalSize(ss) + |s.literals| + MFLIMIT <= limit
    requires s.offset > TotalSize(ss) + |s.literals| || TotalSize(ss) + s.Size() + LASTLITERALS > limit
    ensures var ip, source := |SequencesBytes(ss)|, SequencesBytes(ss) + SequenceBytes(s) + rest;
      Decompressed(source, limit)
      == Malformed(if s.offset > TotalSize(ss) + |s.literals| then ip + |SequenceBytes(s)| - |Extension(s.extra)| else ip + |SequenceBytes(s)|)
  {
    hide SequencesBytes, Extension, Nibble, OffsetBytes, Decode, KeepsMargins, Valid;
    var ip, source := |SequencesBytes(ss)|, SequencesBytes(ss) + SequenceBytes(s) + rest;
    assert Has(source, ip, SequenceBytes(s));
    assert SequencesBytes(ss) <= source;
    SequenceParts(source, ip, s);
    hide SequenceBytes, Has;
    FaultySequence(source, ip, Expand(ss), limit, s);
    DecodeFromStart(source, ss, limit, Malformed(FaultAt(s, TotalSize(ss), ip, limit).value));
  }
}
