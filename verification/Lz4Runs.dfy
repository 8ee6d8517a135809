/** What the compressor makes of equal bytes. */
module Lz4Runs {
  import opened Bytes
  import opened Lz4Format
  import opened Lz4Search

  /** One literal, and a match up to the last five bytes. */
  function RunSequence(source: seq<byte>): Sequence
    requires |source| > MINLENGTH
  {
    Sequence(source[..1], 1, |source| - 6 - MINMATCH)
  }

  lemma RunIsHit(v: Variant, source: seq<byte>)
    requires AllEqual(source) && |source| > MINLENGTH
    ensures HitAt(v, source, Searched(Begin), 1, 0) && Ref(v, source, Searched(Begin) + Probes(1, 0), 1) == 0
  {
    assert Probe(1, 0) == 1 && Probe(1, 1) == 2;
  }

  lemma {:induction false} RunIsOne(v: Variant, source: seq<byte>, t: Trace)
    requires AllEqual(source) && |source| > MINLENGTH && Greedy(v, source, t) && t != Begin
    ensures t == Found(Begin, RunSequence(source), 0)
  {
    hide HitAt, Ref, Searched, Probes, Hit;
    if t.before == Begin {
      RunIsHit(v, source);
      assert t.Found?;
      assert t.k == 0;
    } else {
      RunIsOne(v, source, t.before);
      assert false;
    }
  }

  lemma RunBlock(v: Variant, source: seq<byte>, b: Block, t: Trace)
    requires AllEqual(source) && |source| > MINLENGTH && GreedyBlock(v, source, b, t)
    ensures b.sequences == Then(Start, RunSequence(source))
  {
    hide HitAt, Ref, Searched, Probes, Hit, Greedy, AllEqual;
    RunIsHit(v, source);
    assert SequencesOf(Begin) == Start && End(Begin) == 0;
    if t != Begin { RunIsOne(v, source, t); }
  }

  lemma RunBlockSize(source: seq<byte>, b: Block)
    requires |source| > MINLENGTH && b.sequences == Then(Start, RunSequence(source)) && Valid(b.sequences)
    requires |Meaning(b)| == |source|
    ensures |Serialize(b)| == if |source| < 25 then 10 else 11 + (|source| - 25) / 255
  {
    var s := RunSequence(source);
    assert TotalSize(b.sequences) == s.Size() && |b.last| == LASTLITERALS;
    if s.extra >= MASK { RunSize(s.extra - MASK); }
    hide RunBytes;
    assert SequencesBytes(b.sequences) == [] + SequenceBytes(s);
  }
}
