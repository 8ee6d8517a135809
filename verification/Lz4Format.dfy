/** The LZ4 block format: sequences of literals and back references, how they
  * are written as bytes, and what data they stand for. */
module Lz4Format {
  import opened Bytes

  const MINMATCH := 4
  const COPYLENGTH := 8
  const LASTLITERALS := 5
  const MFLIMIT := COPYLENGTH + MINMATCH
  const MINLENGTH := MFLIMIT + 1
  const LZ4_64KLIMIT := 0x1_0000 + (MFLIMIT - 1)
  const MAX_DISTANCE := 0xFFFF
  const MASK := 15   // ML_MASK and RUN_MASK

  /** Literals, then a copy of `extra + MINMATCH` bytes from `offset` back. */
  datatype Sequence = Sequence(literals: seq<byte>, offset: nat, extra: nat) {
    function Count(): nat { extra + MINMATCH }
    function Size(): nat { |literals| + Count() }
  }

  /** The sequences of a block, latest outermost. */
  datatype Sequences = Start | Then(before: Sequences, s: Sequence)

  datatype Block = Block(sequences: Sequences, last: seq<byte>)

  // ---- bytes ----

  function RunBytes(n: nat): (s: seq<byte>)
  {
    if n < 255 then [n] else [255] + RunBytes(n - 255)
  }

  lemma {:induction false} RunSize(n: nat)
    ensures |RunBytes(n)| == n / 255 + 1
    decreases n
  {
    if n >= 255 { RunSize(n - 255); }
  }

  function Nibble(n: nat): (b: byte)
    ensures b <= MASK
  {
    Min(n, MASK)
  }

  function Extension(n: nat): seq<byte> {
    if n < MASK then [] else RunBytes(n - MASK)
  }

  /** A 16-bit offset, low byte first. */
  function OffsetBytes(offset: nat): seq<byte> {
    [offset % 256, offset / 256 % 256]
  }

  function LiteralBytes(literals: seq<byte>): seq<byte> {
    Extension(|literals|) + literals
  }

  function MatchBytes(offset: nat, extra: nat): seq<byte> {
    OffsetBytes(offset) + Extension(extra)
  }

  /** A token of two nibbles, the literals, and the match. */
  function SequenceBytes(s: Sequence): seq<byte> {
    [16 * Nibble(|s.literals|) + Nibble(s.extra)] + (LiteralBytes(s.literals) + MatchBytes(s.offset, s.extra))
  }

  function LastBytes(literals: seq<byte>): seq<byte> {
    [16 * Nibble(|literals|)] + LiteralBytes(literals)
  }

  function SequencesBytes(ss: Sequences): seq<byte> {
    match ss
    case Start => []
    case Then(before, s) => SequencesBytes(before) + SequenceBytes(s)
  }

  // ---- meaning ----

  /** Copies `count` bytes from `offset` back, one at a time, so that a copy longer
    * than its offset repeats what it has just written. */
  function CopyMatch(data: seq<byte>, offset: nat, count: nat): (r: seq<byte>)
    requires 1 <= offset <= |data|
    ensures |r| == |data| + count && data <= r
  {
    if count == 0 then data
    else
      var r := CopyMatch(data, offset, count - 1);
      r + [r[|r| - offset]]
  }

  function TotalSize(ss: Sequences): nat {
    match ss
    case Start => 0
    case Then(before, s) => TotalSize(before) + s.Size()
  }

  /** A sequence that can follow `size` bytes: its offset fits 16 bits and looks back
    * no further than the data goes. */
  predicate Follows(s: Sequence, size: nat) {
    1 <= s.offset <= MAX_DISTANCE && s.offset <= size + |s.literals|
  }

  predicate Valid(ss: Sequences) {
    ss.Then? ==> Valid(ss.before) && Follows(ss.s, TotalSize(ss.before))
  }

  function Expand(ss: Sequences): (r: seq<byte>)
    requires Valid(ss)
    ensures |r| == TotalSize(ss)
  {
    match ss
    case Start => []
    case Then(before, s) => CopyMatch(Expand(before) + s.literals, s.offset, s.Count())
  }

  /** The end-of-block rules for a sequence behind `size` of `n` bytes: its match starts
    * at least MFLIMIT bytes, and ends at least LASTLITERALS bytes, before the end. */
  predicate LeavesRoom(s: Sequence, size: nat, n: nat) {
    size + |s.literals| + MFLIMIT <= n && size + s.Size() + LASTLITERALS <= n
  }

  predicate KeepsMargins(ss: Sequences, n: nat) {
    ss.Then? ==> KeepsMargins(ss.before, n) && LeavesRoom(ss.s, TotalSize(ss.before), n)
  }

  ghost predicate IsBlock(b: Block) {
    Valid(b.sequences) && KeepsMargins(b.sequences, TotalSize(b.sequences) + |b.last|)
  }

  function Serialize(b: Block): seq<byte> {
    SequencesBytes(b.sequences) + LastBytes(b.last)
  }

  function Meaning(b: Block): seq<byte>
    requires Valid(b.sequences)
  {
    Expand(b.sequences) + b.last
  }

  // ---- a copied match, position by position ----

  /** The byte that a copy from `offset` back leaves at position `x`: the last
    * `offset` bytes before the copy, over and over. */
  function Periodic(data: seq<byte>, offset: nat, x: nat): byte
    requires 1 <= offset <= |data|
  {
    if x < |data| then data[x] else Periodic(data, offset, x - offset)
  }

  predicate Multiple(gap: nat, offset: nat)
    requires 1 <= offset
  {
    gap == 0 || (offset <= gap && Multiple(gap - offset, offset))
  }

  /** Looking back any whole number of periods finds the same byte. */
  lemma {:induction false} PeriodicBack(data: seq<byte>, offset: nat, x: nat, gap: nat)
    requires 1 <= offset <= |data| && Multiple(gap, offset)
    requires |data| <= x && |data| <= x - gap + offset
    ensures Periodic(data, offset, x) == Periodic(data, offset, x - gap)
  {
    if gap != 0 {
      if offset == gap {
      } else {
        PeriodicBack(data, offset, x - offset, gap - offset);
      }
    }
  }

  lemma {:induction false} CopyMatchIsPeriodic(data: seq<byte>, offset: nat, count: nat)
    requires 1 <= offset <= |data|
    ensures forall x | 0 <= x < |data| + count ::
      CopyMatch(data, offset, count)[x] == Periodic(data, offset, x)
  {
    if count != 0 {
      CopyMatchIsPeriodic(data, offset, count - 1);
    }
  }

  /** A sequence that starts with `data` and is periodic from there on is the copied match. */
  lemma PeriodicIsCopyMatch(data: seq<byte>, offset: nat, count: nat, r: seq<byte>)
    requires 1 <= offset <= |data| && |r| == |data| + count
    requires forall x | 0 <= x < |r| :: r[x] == Periodic(data, offset, x)
    ensures r == CopyMatch(data, offset, count)
  {
    CopyMatchIsPeriodic(data, offset, count);
  }
}
