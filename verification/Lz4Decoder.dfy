/** LZ4_decompress_safe: its answer for any input, computed with 8-byte copies. */
module Lz4Decoder {
  import opened Bytes
  import opened Lz4Format

  /** `Malformed` carries the input position at which the decoder gave up.
    * `Unspecified` is the answer for a zero offset, which the decoder does not
    * reject: it then repeats whatever bytes the output buffer held before. */
  datatype Outcome = Decoded(data: seq<byte>) | Malformed(position: nat) | Unspecified

  /** Adds bytes to `length` until one is not 255 or `end` is reached. */
  function ReadRun(source: seq<byte>, ip: nat, end: int, length: nat): (r: (nat, nat))
    requires ip <= |source| && end <= |source|
    ensures length <= r.0 && ip <= r.1 && (r.1 == ip || r.1 <= end)
    decreases end - ip
  {
    if ip >= end then (length, ip)
    else if source[ip] == 255 then ReadRun(source, ip + 1, end, length + 255)
    else (length + source[ip], ip + 1)
  }

  /** A 4-bit length, extended by a run of bytes when it is 15. */
  function ReadLength(source: seq<byte>, nibble: nat, ip: nat, end: int): (r: (nat, nat))
    requires ip <= |source| && end <= |source|
    ensures ip <= r.1 && (r.1 == ip || r.1 <= end)
  {
    if nibble == MASK then ReadRun(source, ip, end, nibble) else (nibble, ip)
  }

  function ReadOffset(source: seq<byte>, ip: nat): nat
    requires ip + 2 <= |source|
  {
    var low, high: int := source[ip], source[ip + 1];
    low + 256 * high
  }

  /** What the decoder reads at a token when `size` bytes have been produced so far:
    * literals that end the block, a reason to give up, or literals and a match. */
  datatype Step = Ending(from: nat)
                | Failing(position: nat)
                | Matching(from: nat, to: nat, offset: nat, count: nat, next: nat)

  function ReadStep(source: seq<byte>, ip: nat, size: nat, limit: nat): (r: Step)
    requires ip < |source|
    ensures r.Ending? ==> r.from <= |source| && size + (|source| - r.from) <= limit
    ensures r.Matching? ==> ip < r.from <= r.to < r.next < |source|
    ensures r.Matching? ==> r.offset <= size + (r.to - r.from) && size + (r.to - r.from) + r.count <= limit
  {
    var (run, ip1) := ReadLength(source, source[ip] / 16, ip + 1, |source|);
    if size + run + MFLIMIT > limit || ip1 + run + (2 + 1 + LASTLITERALS) > |source| then
      if size + run > limit || ip1 + run != |source| then Failing(ip1) else Ending(ip1)
    else ReadMatch(source, source[ip] % 16, ip1, ip1 + run, size + run, limit)
  }

  /** The match behind the literals between `from` and `to`, when `size` bytes come before it. */
  function ReadMatch(source: seq<byte>, nibble: nat, from: nat, to: nat, size: nat, limit: nat): (r: Step)
    requires from <= to && to + 2 + LASTLITERALS < |source|
    ensures r.Failing? || (r.Matching? && r.from == from && r.to == to < r.next < |source|)
    ensures r.Matching? ==> r.offset <= size && size + r.count <= limit
  {
    var offset := ReadOffset(source, to);
    if offset > size then Failing(to + 2)
    else
      var (extra, next) := ReadLength(source, nibble, to + 2, |source| - (LASTLITERALS + 1));
      if size + extra + MINMATCH + LASTLITERALS > limit then Failing(next)
      else Matching(from, to, offset, extra + MINMATCH, next)
  }

  /** Decoding from input position `ip` when `data` has been produced so far. */
  function Decode(source: seq<byte>, ip: nat, data: seq<byte>, limit: nat): Outcome
    requires ip < |source|
    decreases |source| - ip
  {
    match ReadStep(source, ip, |data|, limit)
    case Ending(from) => Decoded(data + source[from..])
    case Failing(position) => Malformed(position)
    case Matching(from, to, offset, count, next) =>
      if offset == 0 then Unspecified
      else Decode(source, next, CopyMatch(data + source[from..to], offset, count), limit)
  }

  function Decompressed(source: seq<byte>, limit: nat): Outcome {
    if source == [] then Malformed(0) else Decode(source, 0, [], limit)
  }

  /** The number that is returned. It depends on sizes only, and so is determined also where a
    * zero offset leaves the bytes open. */
  function ReturnedFrom(source: seq<byte>, ip: nat, size: nat, limit: nat): int
    requires ip < |source|
    decreases |source| - ip
  {
    match ReadStep(source, ip, size, limit)
    case Ending(from) => size + (|source| - from)
    case Failing(position) => -1 - position
    case Matching(from, to, _, count, next) => ReturnedFrom(source, next, size + (to - from) + count, limit)
  }

  function Returned(source: seq<byte>, limit: nat): int {
    if source == [] then -1 else ReturnedFrom(source, 0, 0, limit)
  }

  // ---- copies inside the output buffer ----

  /** Reads `width` bytes at `from`, then writes them at `to`. */
  method CopyWord(a: array<byte>, from: nat, to: nat, width: nat)
    requires from + width <= a.Length && to + width <= a.Length
    modifies a
    ensures forall x | 0 <= x < a.Length ::
      a[x] == if to <= x < to + width then old(a[from + (x - to)]) else old(a[x])
  {
    var word := a[from..from + width];
    forall i | 0 <= i < width {
      a[to + i] := word[i];
    }
  }

  /** 8 bytes at a time from the input, running up to 8 bytes past `end`. */
  method WildCopyLiterals(source: seq<byte>, ip: nat, a: array<byte>, op: nat, end: nat)
    requires op <= end && end + COPYLENGTH <= a.Length && ip + (end - op) + COPYLENGTH <= |source|
    modifies a
    ensures a[..end] == old(a[..op]) + source[ip..ip + (end - op)]
  {
    var s, d := ip, op;
    while true
      invariant op <= d && s - ip == d - op && (d == op || d < end)
      invariant forall x | 0 <= x < op :: a[x] == old(a[x])
      invariant forall x | op <= x < d :: a[x] == source[ip + (x - op)]
      decreases end - d
    {
      forall i | 0 <= i < COPYLENGTH {
        a[d + i] := source[s + i];
      }
      s, d := s + COPYLENGTH, d + COPYLENGTH;
      if d >= end { break; }
    }
  }

  /** The rest of the input, without running past it. */
  method CopyLiterals(source: seq<byte>, ip: nat, a: array<byte>, op: nat)
    requires ip <= |source| && op + (|source| - ip) <= a.Length
    modifies a
    ensures a[..op + (|source| - ip)] == old(a[..op]) + source[ip..]
  {
    forall i | 0 <= i < |source| - ip {
      a[op + i] := source[ip + i];
    }
  }

  /** What the buffer holds below `op` while a match that starts behind `data` is copied.
    * Nothing is claimed for a zero offset. */
  ghost predicate Copying(a: array<byte>, data: seq<byte>, offset: nat, op: nat)
    requires offset <= |data|
    reads a
  {
    op <= a.Length && (1 <= offset ==> forall x | 0 <= x < op :: a[x] == Periodic(data, offset, x))
  }

  /** The source pointer lies a whole number of periods, and at least `width`, behind. */
  ghost predicate Behind(ref: int, op: nat, width: nat, data: seq<byte>, offset: nat) {
    0 <= ref <= op && (1 <= offset ==> ref + width <= op && |data| <= ref + offset && Multiple(op - ref, offset))
  }

  method CopyPeriodic(a: array<byte>, ghost data: seq<byte>, ghost offset: nat, ref: nat, op: nat, width: nat)
    requires offset <= |data| <= op && Copying(a, data, offset, op)
    requires Behind(ref, op, width, data, offset) && op + width <= a.Length
    modifies a
    ensures Copying(a, data, offset, op + width)
  {
    CopyWord(a, ref, op, width);
    if 1 <= offset {
      forall x | 0 <= x < op + width ensures a[x] == Periodic(data, offset, x) {
        if op <= x {
          PeriodicBack(data, offset, x, op - ref);
        }
      }
    }
  }

  method WildCopyMatch(a: array<byte>, ghost data: seq<byte>, ghost offset: nat, ref0: nat, op0: nat, end: int)
    returns (ref: nat, op: nat)
    requires offset <= |data| <= op0 && Copying(a, data, offset, op0)
    requires Behind(ref0, op0, COPYLENGTH, data, offset)
    requires op0 + COPYLENGTH <= a.Length && end + COPYLENGTH <= a.Length
    modifies a
    ensures op0 < op && op - ref == op0 - ref0 && end <= op <= a.Length && Copying(a, data, offset, op)
  {
    ref, op := ref0, op0;
    while true
      invariant op0 <= op && op - ref == op0 - ref0 && Copying(a, data, offset, op)
      invariant op == op0 || op < end
      decreases a.Length - op
    {
      CopyPeriodic(a, data, offset, ref, op, COPYLENGTH);
      ref, op := ref + COPYLENGTH, op + COPYLENGTH;
      if op >= end { break; }
    }
  }

  const DEC32TABLE: seq<int> := [0, 3, 2, 3, 0, 0, 0, 0]
  const DEC64TABLE: seq<int> := [0, 0, 0, -1, 0, 1, 2, 3]

  /** The table entries turn a gap of 1 to 7 into one of at least 4, and then of at
    * least 8, that is still a whole number of periods. */
  lemma TablesKeepPeriod(offset: nat)
    requires 1 <= offset < COPYLENGTH
    ensures var gap := offset + DEC32TABLE[offset];
      && 4 <= gap && Multiple(gap, offset)
      && 8 <= gap + 4 + DEC64TABLE[offset] <= offset + 8
      && Multiple(gap + 4 + DEC64TABLE[offset], offset)
  {
    if offset == 1 {
      assert Multiple(4, 1) by { assert Multiple(2, 1); }
      assert Multiple(8, 1) by { assert Multiple(6, 1); }
    } else if offset == 2 {
      assert Multiple(4, 2);
      assert Multiple(8, 2);
    }
  }

  /** The first eight bytes of a match whose source lies less than eight bytes behind. */
  method StartNearMatch(a: array<byte>, ghost data: seq<byte>, offset: nat, start: nat) returns (ref: nat, op: nat)
    requires start == |data| && offset <= start && start + COPYLENGTH <= a.Length && Copying(a, data, offset, start)
    requires offset < COPYLENGTH
    modifies a
    ensures op == start + COPYLENGTH && Behind(ref, op, COPYLENGTH, data, offset)
    ensures Copying(a, data, offset, op)
  {
    ref, op := start - offset, start;
    if 1 <= offset { TablesKeepPeriod(offset); }
    var i := 0;
    while i < 4
      invariant 0 <= i <= 4 && Copying(a, data, offset, op + i)
    {
      a[op + i] := a[ref + i];
      i := i + 1;
    }
    op, ref := op + 4, ref + 4 - DEC32TABLE[offset];
    CopyPeriodic(a, data, offset, ref, op, 4);
    op, ref := op + 4, ref - DEC64TABLE[offset];
  }

  /** The first eight bytes of a match. */
  method StartMatch(a: array<byte>, ghost data: seq<byte>, offset: nat, start: nat) returns (ref: nat, op: nat)
    requires start == |data| && offset <= start && start + COPYLENGTH <= a.Length && Copying(a, data, offset, start)
    modifies a
    ensures op == start + COPYLENGTH && Behind(ref, op, COPYLENGTH, data, offset)
    ensures Copying(a, data, offset, op)
  {
    if offset < COPYLENGTH {
      ref, op := StartNearMatch(a, data, offset, start);
    } else {
      assert Multiple(offset, offset);
      CopyPeriodic(a, data, offset, start - offset, start, COPYLENGTH);
      ref, op := start - offset + COPYLENGTH, start + COPYLENGTH;
    }
  }

  /** One whole match of `extra + MINMATCH` bytes behind the first `start` bytes, refused
    * when it leaves no room for the last literals. */
  method CopyMatchInto(a: array<byte>, offset: nat, start: nat, extra: nat) returns (ok: bool)
    requires offset <= start && start + MFLIMIT <= a.Length
    modifies a
    ensures ok <==> start + extra + MINMATCH + LASTLITERALS <= a.Length
    ensures ok && 1 <= offset ==>
      a[..start + extra + MINMATCH] == CopyMatch(old(a[..start]), offset, extra + MINMATCH)
  {
    ghost var data := a[..start];
    var ref, op := StartMatch(a, data, offset, start);
    var end := op + extra - 4;
    if end > a.Length - COPYLENGTH - 4 {
      if end > a.Length - LASTLITERALS { return false; }
      if op < a.Length - COPYLENGTH {
        ref, op := WildCopyMatch(a, data, offset, ref, op, a.Length - COPYLENGTH);
      }
      while op < end
        invariant |data| <= op <= a.Length && Behind(ref, op, 1, data, offset) && Copying(a, data, offset, op)
        invariant end <= a.Length
      {
        CopyPeriodic(a, data, offset, ref, op, 1);
        op, ref := op + 1, ref + 1;
      }
    } else {
      ref, op := WildCopyMatch(a, data, offset, ref, op, end);
    }
    if 1 <= offset {
      PeriodicIsCopyMatch(data, offset, extra + MINMATCH, a[..end]);
    }
    return true;
  }

  /** A negative answer is minus the position of the failure, minus one. */
  ghost predicate Answers(r: int, written: seq<byte>, expected: Outcome) {
    match expected
    case Decoded(data) => 0 <= r <= |written| && written[..r] == data
    case Malformed(position) => r == -(position as int) - 1
    case Unspecified => true
  }

  method ReadLengthLoop(source: seq<byte>, nibble: nat, ip0: nat, end: int) returns (length: nat, ip: nat)
    requires ip0 <= |source| && end <= |source|
    ensures (length, ip) == ReadLength(source, nibble, ip0, end)
  {
    length, ip := nibble, ip0;
    if length == MASK {
      var s := 255;
      while ip < end && s == 255
        invariant ip0 <= ip && (ip == ip0 || ip <= end)
        invariant ReadRun(source, ip0, end, nibble) == if s == 255 then ReadRun(source, ip, end, length) else (length, ip)
        decreases end - ip
      {
        s := source[ip];
        ip := ip + 1;
        length := length + s;
      }
    }
  }

  /** The offset, the match length and the match that follow the literals. */
  method DecodeMatch(source: seq<byte>, nibble: nat, ip0: nat, dest: array<byte>, op0: nat, ghost from: nat)
    returns (ok: bool, offset: nat, count: nat, ip: nat)
    requires from <= ip0 && ip0 + 2 + LASTLITERALS < |source| && op0 + MFLIMIT <= dest.Length
    modifies dest
    ensures ReadMatch(source, nibble, from, ip0, op0, dest.Length)
      == if ok then Matching(from, ip0, offset, count, ip) else Failing(ip)
    ensures ok && offset != 0 ==> dest[..op0 + count] == CopyMatch(old(dest[..op0]), offset, count)
  {
    offset := ReadOffset(source, ip0);
    ip, count := ip0 + 2, 0;
    if op0 - offset < 0 { return false, offset, count, ip; }
    var extra;
    extra, ip := ReadLengthLoop(source, nibble, ip, |source| - (LASTLITERALS + 1));
    ok := CopyMatchInto(dest, offset, op0, extra);
    count := extra + MINMATCH;
  }

  /** One token with its literals and its match, or with the literals that end the block. */
  method DecodeSequence(source: seq<byte>, ip0: nat, dest: array<byte>, op0: nat)
    returns (ghost step: Step, finished: bool, r: int, ip: nat, op: nat)
    requires ip0 < |source| && op0 <= dest.Length
    modifies dest
    ensures step == ReadStep(source, ip0, op0, dest.Length) && finished == !step.Matching?
    ensures step.Failing? ==> r == -1 - step.position
    ensures step.Ending? ==> r == op0 + (|source| - step.from) && dest[..r] == old(dest[..op0]) + source[step.from..]
    ensures step.Matching? ==> ip == step.next && op == op0 + (step.to - step.from) + step.count
    ensures step.Matching? && step.offset != 0 ==>
      dest[..op] == CopyMatch(old(dest[..op0]) + source[step.from..step.to], step.offset, step.count)
  {
    hide ReadLength, CopyMatch, Decode, ReadMatch;
    var token := source[ip0];
    op, r := op0, 0;
    step := ReadStep(source, ip0, op0, dest.Length);
    var run;
    run, ip := ReadLengthLoop(source, token / 16, ip0 + 1, |source|);
    if op + run > dest.Length - MFLIMIT || ip + run > |source| - (2 + 1 + LASTLITERALS) {
      if op + run > dest.Length || ip + run != |source| { return step, true, -1 - ip, ip, op; }
      CopyLiterals(source, ip, dest, op);
      return step, true, op + run, ip, op;
    }
    ghost var ip1 := ip;
    WildCopyLiterals(source, ip, dest, op, op + run);
    op, ip := op + run, ip + run;
    var ok, offset, count;
    ok, offset, count, ip := DecodeMatch(source, token % 16, ip, dest, op, ip1);
    if !ok { return step, true, -1 - ip, ip, op; }
    op, finished := op + count, false;
  }

  /** Never reads or writes outside its buffers, whatever the input, and answers exactly
    * what `Decompressed` says: the decoded bytes, or where the input is malformed. */
  method DecompressSafe(source: seq<byte>, dest: array<byte>) returns (r: int)
    modifies dest
    ensures Answers(r, dest[..], Decompressed(source, dest.Length)) && r == Returned(source, dest.Length)
  {
    hide ReadStep;
    if source == [] { return -1; }
    var ip, op := 0, 0;
    while true
      invariant 0 <= ip < |source| && 0 <= op <= dest.Length
      invariant Decompressed(source, dest.Length) == Unspecified
        || Decompressed(source, dest.Length) == Decode(source, ip, dest[..op], dest.Length)
      invariant Returned(source, dest.Length) == ReturnedFrom(source, ip, op, dest.Length)
      decreases |source| - ip
    {
      ghost var step;
      var finished;
      step, finished, r, ip, op := DecodeSequence(source, ip, dest, op);
      if finished { return; }
    }
  }
}
