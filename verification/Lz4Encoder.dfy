/** LZ4_compress: a greedy match finder over a hash table of earlier positions. */
module Lz4Encoder {
  import opened Bytes
  import opened Lz4Format
  import opened Lz4Search
  import opened Lz4Decoder
  import opened Lz4RoundTrip
  import opened Lz4Runs

  function CompressBound(size: nat): nat { size + size / 255 + 16 }

  /** Every cell holds the latest position entered that hashes to it, not changed by being cut to
    * the width of the table, or the zero that cells start with. */
  ghost predicate Holds(v: Variant, source: seq<byte>, table: array<nat>, entered: set<nat>, bound: nat)
    reads table
  {
    && table.Length == v.Cells() && (forall q | q in entered :: q <= bound)
    && forall h | 0 <= h < table.Length :: table[h] == Entry(v, source, entered, h, bound)
  }

  lemma HoldsLonger(v: Variant, source: seq<byte>, table: array<nat>, entered: set<nat>, low: nat, high: nat)
    requires Holds(v, source, table, entered, low) && low <= high
    ensures Holds(v, source, table, entered, high)
  {
    forall h | 0 <= h < table.Length ensures table[h] == Entry(v, source, entered, h, high) {
      EntrySkips(v, source, entered, h, low, high);
    }
  }

  lemma EntryNext(v: Variant, source: seq<byte>, entered: set<nat>, h: nat, ip: nat)
    requires 0 < ip && ip + 4 <= |source|
    ensures Entry(v, source, entered + {ip}, h, ip)
      == if Hash(v, source, ip) == h then ip else Entry(v, source, entered, h, ip - 1)
  {
    hide Hash;
    EntryAgrees(v, source, entered + {ip}, entered, h, ip - 1);
  }

  /** Enters a position, cut to the width of the table. Matches start far enough from the end of
    * the input for nothing to be cut off. */
  method Enter(v: Variant, source: seq<byte>, table: array<nat>, ip: nat, ghost entered: set<nat>)
    requires 0 < ip && ip + MFLIMIT <= |source| <= v.Modulus() + (MFLIMIT - 1)
    requires Holds(v, source, table, entered, ip - 1)
    modifies table
    ensures Holds(v, source, table, entered + {ip}, ip)
  {
    var h := Hash(v, source, ip);
    hide Hash, Read32, Entry;
    table[h] := ip % v.Modulus();
    forall k | 0 <= k < table.Length ensures table[k] == Entry(v, source, entered + {ip}, k, ip) {
      EntryNext(v, source, entered, k, ip);
    }
  }

  /** Whether the entry found for `ip` is near and stands for the same four bytes. */
  method IsHit(v: Variant, source: seq<byte>, ip: nat, ref: nat, ghost entered: set<nat>) returns (hit: bool)
    requires 0 < ip && ip + MFLIMIT <= |source| && ref == Ref(v, source, entered, ip)
    ensures hit <==> Hit(v, source, entered, ip)
  {
    hide Read32, Repeats, Ref;
    hit := ref >= ip - MAX_DISTANCE && Read32(source, ref) == Read32(source, ip);
    if Read32(source, ref) == Read32(source, ip) { SameWord(source, ref, ip); }
    if Repeats(source, ip - ref, ip, ip + 4) { SameBytes(source, ref, ip); }
  }

  /** Searches from `ip0` on for a position whose table entry is near and has the same four
    * bytes, in steps that grow with the number of failures: finds the first one in reach. */
  method FindMatch(v: Variant, source: seq<byte>, table: array<nat>, ip0: nat, ghost entered: set<nat>)
    returns (found: bool, ip: nat, ref: nat, ghost k: nat)
    requires MINLENGTH <= |source| <= v.Modulus() + (MFLIMIT - 1) && 0 < ip0 && ip0 + MFLIMIT <= |source| + 1
    requires Holds(v, source, table, entered, ip0 - 1)
    modifies table
    ensures found ==> HitAt(v, source, entered, ip0, k) && NoHitBefore(v, source, entered, ip0, k)
    ensures found ==> ip == Probe(ip0, k) && ref == Ref(v, source, entered + Probes(ip0, k), ip)
    ensures found ==> Holds(v, source, table, entered + Probes(ip0, k + 1), ip)
    ensures !found ==> NeverHit(v, source, entered, ip0)
  {
    hide Read32, Hash, Holds, Hit, Ref, Entry, NoHitBefore, NeverHit;
    var mflimit := |source| - MFLIMIT;
    var forwardIp, forwardH := ip0, Hash(v, source, ip0);
    var findMatchAttempts := ATTEMPTS_PER_STEP + 3;
    ip, k := ip0, 0;
    SearchStarts(v, source, table, entered, ip0);
    while true
      invariant ip0 <= forwardIp <= mflimit + 1 && forwardIp == Probe(ip0, k)
      invariant forwardH == Hash(v, source, forwardIp) && findMatchAttempts == ATTEMPTS_PER_STEP + 3 + k
      invariant Holds(v, source, table, entered + Probes(ip0, k), forwardIp - 1)
      invariant NoHitBefore(v, source, entered, ip0, k)
      decreases mflimit + 1 - forwardIp
    {
      var h := forwardH;
      var step := findMatchAttempts / ATTEMPTS_PER_STEP;
      findMatchAttempts := findMatchAttempts + 1;
      ip := forwardIp;
      forwardIp := ip + step;
      if forwardIp > mflimit {
        OutOfReach(v, source, entered, ip0, k);
        return false, ip, 0, k;
      }
      forwardH := Hash(v, source, forwardIp);
      CellIsRef(v, source, table, entered + Probes(ip0, k), ip);
      ref := table[h];
      Enter(v, source, table, ip, entered + Probes(ip0, k));
      var hit := IsHit(v, source, ip, ref, entered + Probes(ip0, k));
      assert entered + Probes(ip0, k + 1) == entered + Probes(ip0, k) + {ip};
      if hit { return true, ip, ref, k; }
      HoldsLonger(v, source, table, entered + Probes(ip0, k + 1), ip, forwardIp - 1);
      NoHitYet(v, source, entered, ip0, k);
      k := k + 1;
    }
  }

  lemma SearchStarts(v: Variant, source: seq<byte>, table: array<nat>, entered: set<nat>, p: nat)
    requires 0 < p && Holds(v, source, table, entered, p - 1)
    ensures Holds(v, source, table, entered + Probes(p, 0), p - 1) && NoHitBefore(v, source, entered, p, 0)
  {
    assert entered + Probes(p, 0) == entered;
  }

  lemma NoHitYet(v: Variant, source: seq<byte>, entered: set<nat>, p: nat, k: nat)
    requires 0 < p && NoHitBefore(v, source, entered, p, k) && !HitAt(v, source, entered, p, k)
    ensures NoHitBefore(v, source, entered, p, k + 1)
  {
    hide HitAt;
  }

  /** The cell that a position hashes to holds the position that a match there would refer to. */
  lemma CellIsRef(v: Variant, source: seq<byte>, table: array<nat>, entered: set<nat>, p: nat)
    requires 0 < p && p + 4 <= |source| && Holds(v, source, table, entered, p - 1)
    ensures Hash(v, source, p) < table.Length && table[Hash(v, source, p)] == Ref(v, source, entered, p)
  {
    hide Hash;
  }

  /** Extends a match backwards, at most to the first byte not yet encoded. */
  method CatchUp(source: seq<byte>, anchor: nat, ip0: nat, ref0: nat) returns (ip: nat, ref: nat)
    requires anchor <= ip0 && ref0 < ip0 && Repeats(source, ip0 - ref0, ip0, ip0 + MINMATCH)
    ensures anchor <= ip <= ip0 && ip - ref == ip0 - ref0
    ensures Repeats(source, ip - ref, ip, ip0 + MINMATCH)
    ensures ip == anchor || ref == 0 || source[ip - 1] != source[ref - 1]
  {
    ip, ref := ip0, ref0;
    while ip > anchor && ref > 0 && source[ip - 1] == source[ref - 1]
      invariant anchor <= ip <= ip0 && 0 <= ref && ip - ref == ip0 - ref0
      invariant Repeats(source, ip - ref, ip, ip0 + MINMATCH)
    {
      ip, ref := ip - 1, ref - 1;
    }
  }

  /** How many of the next `width` bytes agree, as LZ4_NbCommonBytes finds from the lowest
    * set bit of the difference of two words. */
  method CommonBytes(source: seq<byte>, ref: nat, ip: nat, width: nat) returns (n: nat)
    requires ref < ip && ip + width <= |source|
    ensures n <= width && Repeats(source, ip - ref, ip, ip + n)
    ensures n < width ==> source[ip + n] != source[ref + n]
  {
    n := 0;
    while n < width && source[ref + n] == source[ip + n]
      invariant n <= width && Repeats(source, ip - ref, ip, ip + n)
    {
      n := n + 1;
    }
  }

  /** Fewer than `width` bytes before `limit` agree from `ip` on. */
  ghost predicate FewerThan(source: seq<byte>, offset: nat, ip: nat, limit: nat, width: nat) {
    1 <= offset <= ip && limit <= |source|
    && (limit < ip + width || exists x | ip <= x < ip + width :: source[x] != source[x - offset])
  }

  /** Counts matching bytes by words of 8, then 4, 2 and 1; the count is maximal. */
  method CountMatch(source: seq<byte>, ref0: nat, ip0: nat) returns (ip: nat)
    requires ref0 < ip0 && ip0 + LASTLITERALS <= |source|
    ensures ip0 <= ip <= |source| - LASTLITERALS && Repeats(source, ip0 - ref0, ip0, ip)
    ensures ip < |source| - LASTLITERALS ==> source[ip] != source[ip - (ip0 - ref0)]
  {
    hide Repeats;
    NoRepeats(source, ip0 - ref0, ip0);
    var matchlimit := |source| - LASTLITERALS;
    var ref;
    ip, ref := ip0, ref0;
    while ip < matchlimit - 7
      invariant ip0 <= ip <= matchlimit && ip - ref == ip0 - ref0 && Repeats(source, ip0 - ref0, ip0, ip)
    {
      var n := CommonBytes(source, ref, ip, 8);
      RepeatsOn(source, ip0 - ref0, ip0, ip, ip + n);
      if n < 8 { return ip + n; }
      ip, ref := ip + 8, ref + 8;
    }
    ip, ref := CountPart(source, ref0, ip0, ref, ip, 4);
    ip, ref := CountPart(source, ref0, ip0, ref, ip, 2);
    ip, ref := CountPart(source, ref0, ip0, ref, ip, 1);
  }

  lemma NoRepeats(source: seq<byte>, offset: nat, from: nat)
    requires 1 <= offset <= from <= |source|
    ensures Repeats(source, offset, from, from)
  {
  }

  lemma RepeatsOn(source: seq<byte>, offset: nat, from: nat, mid: nat, to: nat)
    requires Repeats(source, offset, from, mid) && Repeats(source, offset, mid, to)
    ensures Repeats(source, offset, from, to)
  {
  }

  /** One of the final comparisons, taken only if the whole part agrees. */
  method CountPart(source: seq<byte>, ghost ref0: nat, ghost ip0: nat, ref1: nat, ip1: nat, width: nat)
    returns (ip: nat, ref: nat)
    requires ref0 < ip0 <= ip1 <= |source| - LASTLITERALS && ip1 - ref1 == ip0 - ref0 && 1 <= width
    requires Repeats(source, ip0 - ref0, ip0, ip1)
    requires FewerThan(source, ip0 - ref0, ip1, |source| - LASTLITERALS, 2 * width)
    ensures ip0 <= ip <= |source| - LASTLITERALS && ip - ref == ip0 - ref0
    ensures Repeats(source, ip0 - ref0, ip0, ip)
    ensures FewerThan(source, ip0 - ref0, ip, |source| - LASTLITERALS, width)
  {
    ip, ref := ip1, ref1;
    if ip < |source| - LASTLITERALS - (width - 1) {
      var n := CommonBytes(source, ref, ip, width);
      if n == width {
        ip, ref := ip + width, ref + width;
      } else {
        assert source[ip + n] != source[ip + n - (ip0 - ref0)];
      }
    }
  }

  // ---- sizes ----

  /** Literals and match together never cost more than 256/255 of what they stand for. */
  lemma SequenceCost(s: Sequence)
    ensures 255 * |SequenceBytes(s)| <= 256 * s.Size()
    ensures 255 * (1 + |Extension(|s.literals|)| + |s.literals|) <= 256 * |s.literals| + 495
  {
    if |s.literals| >= MASK { RunSize(|s.literals| - MASK); }
    if s.extra >= MASK { RunSize(s.extra - MASK); }
  }

  // ---- output ----

  method EmitRun(dest: array<byte>, op0: nat, n0: nat) returns (op: nat)
    requires op0 + |RunBytes(n0)| <= dest.Length
    modifies dest
    ensures op == op0 + |RunBytes(n0)| && dest[..op] == old(dest[..op0]) + RunBytes(n0)
    ensures forall x | op <= x < dest.Length :: dest[x] == old(dest[x])
  {
    op := op0;
    var n := n0;
    while n > 254
      invariant 0 <= n && op0 <= op && op + |RunBytes(n)| == op0 + |RunBytes(n0)|
      invariant dest[..op] + RunBytes(n) == old(dest[..op0]) + RunBytes(n0)
      invariant forall x | op <= x < dest.Length :: dest[x] == old(dest[x])
    {
      dest[op] := 255;
      assert dest[..op + 1] + RunBytes(n - 255) == dest[..op] + RunBytes(n);
      op, n := op + 1, n - 255;
    }
    dest[op] := n;
    op := op + 1;
  }

  /** A token with its literals; the match length is added to the token later. */
  method EmitLiterals(source: seq<byte>, dest: array<byte>, token: nat, anchor: nat, ip: nat) returns (op: nat)
    requires anchor <= ip && ip + COPYLENGTH <= |source|
    requires token + 1 + |Extension(ip - anchor)| + (ip - anchor) + COPYLENGTH <= dest.Length
    modifies dest
    ensures op == token + 1 + |LiteralBytes(source[anchor..ip])|
    ensures dest[..op] == old(dest[..token]) + ([16 * Nibble(ip - anchor)] + LiteralBytes(source[anchor..ip]))
  {
    hide RunBytes, Nibble, Extension;
    var length := ip - anchor;
    ghost var before, t: seq<byte> := dest[..token], [16 * Nibble(length)];
    op := EmitToken(dest, token, length);
    WildCopyLiterals(source, anchor, dest, op, op + length);
    op := op + length;
  }

  /** A token for so many literals, and the rest of their number. */
  method EmitToken(dest: array<byte>, token: nat, length: nat) returns (op: nat)
    requires token + 1 + |Extension(length)| <= dest.Length
    modifies dest
    ensures op == token + 1 + |Extension(length)|
    ensures dest[..op] == old(dest[..token]) + [16 * Nibble(length)] + Extension(length)
  {
    ghost var before, t: seq<byte> := dest[..token], [16 * Nibble(length)];
    dest[token] := 16 * Nibble(length);
    op := token + 1;
    assert dest[..op] == before + t;
    hide RunBytes, Nibble;
    if length >= MASK { op := EmitRun(dest, op, length - MASK); }
  }

  lemma Regroup(head: seq<byte>, token: seq<byte>, body: seq<byte>, tail: seq<byte>)
    ensures head + (token + body) + tail == head + (token + (body + tail))
  {
  }

  /** Adds the match length to the token, and the rest of it behind the offset. */
  method EmitMatchLength(dest: array<byte>, token: nat, op0: nat, length: nat,
      ghost head: seq<byte>, ghost first: byte, ghost body: seq<byte>)
    returns (op: nat)
    requires token == |head| && op0 + |Extension(length)| <= dest.Length
    requires dest[..op0] == head + ([first] + body) && first % 16 == 0
    modifies dest
    ensures op == op0 + |Extension(length)|
    ensures dest[..op] == head + ([first + Nibble(length)] + (body + Extension(length)))
  {
    op := op0;
    assert dest[token] == first by { assert dest[..op][token] == first; }
    dest[token] := dest[token] + Nibble(length);
    ghost var t: seq<byte> := [first + Nibble(length)];
    assert dest[..op] == head + (t + body);
    if length >= MASK {
      op := EmitRun(dest, op, length - MASK);
    }
    Regroup(head, t, body, Extension(length));
  }

  method EmitOffset(dest: array<byte>, op: nat, offset: nat)
    requires op + 2 <= dest.Length && offset <= MAX_DISTANCE
    modifies dest
    ensures dest[..op + 2] == old(dest[..op]) + OffsetBytes(offset)
  {
    dest[op], dest[op + 1] := offset % 256, offset / 256;
  }

  /** Writes the offset, finds how far the match goes, and writes its length. `head` is what
    * stands before the token and `body` what stands between the token and the offset. */
  method EmitMatch(source: seq<byte>, dest: array<byte>, token: nat, op0: nat, ip0: nat, ref: nat,
      ghost reach: nat, ghost head: seq<byte>, ghost first: byte, ghost body: seq<byte>)
    returns (ip: nat, op: nat, ghost extra: nat)
    requires token == |head| && op0 <= dest.Length && dest[..op0] == head + ([first] + body) && first % 16 == 0
    requires ref < ip0 <= reach && ip0 - ref <= MAX_DISTANCE && reach + MFLIMIT <= |source|
    requires Repeats(source, ip0 - ref, ip0, reach + MINMATCH)
    requires CompressBound(|source|) <= dest.Length && 255 * op0 <= 256 * ip0 + 495
    modifies dest
    ensures ip == ip0 + extra + MINMATCH && reach + MINMATCH <= ip <= |source| - LASTLITERALS
    ensures Repeats(source, ip0 - ref, ip0, ip)
    ensures ip + LASTLITERALS < |source| ==> source[ip] != source[ip - (ip0 - ref)]
    ensures op == op0 + |MatchBytes(ip0 - ref, extra)| && op <= dest.Length
    ensures dest[..op] == head + ([first + Nibble(extra)] + (body + MatchBytes(ip0 - ref, extra)))
  {
    hide RunBytes, Nibble, OffsetBytes;
    var offset := ip0 - ref;
    EmitOffset(dest, op0, offset);
    ip := CountMatch(source, ref + MINMATCH, ip0 + MINMATCH);
    assert reach + MINMATCH <= ip;
    extra, op := ip - (ip0 + MINMATCH), op0 + 2;
    ghost var more := body + OffsetBytes(offset);
    Regroup(head, [first], body, OffsetBytes(offset));
    if extra >= MASK { RunSize(extra - MASK); }
    op := EmitMatchLength(dest, token, op, ip - (ip0 + MINMATCH), head, first, more);
    assert (body + OffsetBytes(offset)) + Extension(extra) == body + MatchBytes(offset, extra);
  }

  // ---- the whole block ----

  /** The sequences `ss` stand for the first `anchor` bytes and `out` is how they are written. */
  ghost predicate Written(source: seq<byte>, ss: Sequences, out: seq<byte>, anchor: nat) {
    && anchor <= |source|
    && Valid(ss) && KeepsMargins(ss, |source|) && Expand(ss) == source[..anchor]
    && out == SequencesBytes(ss) && 255 * |out| <= 256 * anchor
  }

  lemma {:induction false} CopyOfRepeats(source: seq<byte>, offset: nat, from: nat, count: nat)
    requires Repeats(source, offset, from, from + count)
    ensures CopyMatch(source[..from], offset, count) == source[..from + count]
  {
    if count > 0 {
      CopyOfRepeats(source, offset, from, count - 1);
      assert source[..from + count] == source[..from + count - 1] + [source[from + count - 1]];
    }
  }

  /** One more sequence: literals up to `ip0`, then a match. */
  lemma Extend(source: seq<byte>, ss: Sequences, out: seq<byte>, anchor: nat, s: Sequence, ip0: nat)
    requires anchor <= ip0 && ip0 + s.Count() <= |source| && s.literals == source[anchor..ip0]
    requires Written(source, ss, out, anchor)
    requires s.offset <= MAX_DISTANCE && Repeats(source, s.offset, ip0, ip0 + s.Count())
    requires LeavesRoom(s, anchor, |source|)
    ensures Written(source, Then(ss, s), out + SequenceBytes(s), ip0 + s.Count())
  {
    hide CopyMatch, SequenceBytes;
    assert source[..anchor] + source[anchor..ip0] == source[..ip0];
    CopyOfRepeats(source, s.offset, ip0, s.Count());
    SequenceCost(s);
  }

  /** The literals from `anchor` to `ip` and a token without its match length are written
    * behind the sequences `ss`, and a match at `ip` is known to reach past `reach`. */
  ghost predicate Pending(source: seq<byte>, ss: Sequences, out: seq<byte>, anchor: nat, ip: nat, ref: nat, reach: nat) {
    && anchor <= ip <= reach && reach + MFLIMIT <= |source|
    && ref < ip && ip - ref <= MAX_DISTANCE && Repeats(source, ip - ref, ip, reach + MINMATCH)
    && Written(source, ss, SequencesBytes(ss), anchor)
    && out == SequencesBytes(ss) + ([16 * Nibble(ip - anchor)] + LiteralBytes(source[anchor..ip]))
  }

  method EmitSequence(source: seq<byte>, dest: array<byte>, ghost ss0: Sequences, token: nat, op0: nat,
      ghost anchor: nat, ip0: nat, ref: nat, ghost reach: nat)
    returns (ghost s: Sequence, ip: nat, op: nat)
    requires op0 <= dest.Length && Pending(source, ss0, dest[..op0], anchor, ip0, ref, reach)
    requires token == |SequencesBytes(ss0)| && CompressBound(|source|) <= dest.Length
    modifies dest
    ensures reach + MINMATCH <= ip && ip + LASTLITERALS <= |source|
    ensures op <= dest.Length && Written(source, Then(ss0, s), dest[..op], ip)
    ensures s.literals == source[anchor..ip0] && s.offset == ip0 - ref && ip == ip0 + s.Count() && Farthest(source, s, ip0)
  {
    hide RunBytes, Repeats, Valid, KeepsMargins, Expand, Nibble, LiteralBytes, MatchBytes, SequencesBytes, Written, Pending,
      CompressBound;
    PendingCost(source, ss0, dest[..op0], anchor, ip0, ref, reach);
    ghost var literals, offset := source[anchor..ip0], ip0 - ref;
    ghost var first: byte, body := 16 * Nibble(|literals|), LiteralBytes(literals);
    ghost var extra;
    ip, op, extra := EmitMatch(source, dest, token, op0, ip0, ref, reach, SequencesBytes(ss0), first, body);
    MatchCompletes(source, ss0, anchor, ip0, ref, reach, extra);
    s := Sequence(literals, offset, extra);
  }

  /** What is known when a match is about to be written. */
  lemma PendingCost(source: seq<byte>, ss: Sequences, out: seq<byte>, anchor: nat, ip: nat, ref: nat, reach: nat)
    requires Pending(source, ss, out, anchor, ip, ref, reach)
    ensures anchor <= ip <= reach && reach + MFLIMIT <= |source| && ref < ip && ip - ref <= MAX_DISTANCE
    ensures Repeats(source, ip - ref, ip, reach + MINMATCH) && Written(source, ss, SequencesBytes(ss), anchor)
    ensures out == SequencesBytes(ss) + ([16 * Nibble(ip - anchor)] + LiteralBytes(source[anchor..ip]))
    ensures 255 * |out| <= 256 * ip + 495
  {
    hide RunBytes, Repeats, Valid, KeepsMargins, Expand, Nibble;
    SequenceCost(Sequence(source[anchor..ip], ip - ref, 0));
  }

  /** The match makes the pending literals one more sequence. */
  lemma MatchCompletes(source: seq<byte>, ss: Sequences, anchor: nat, ip: nat, ref: nat, reach: nat, extra: nat)
    requires anchor <= ip <= reach && ref < ip && ip - ref <= MAX_DISTANCE && Written(source, ss, SequencesBytes(ss), anchor)
    requires reach + MFLIMIT <= |source| && reach <= ip + extra && ip + extra + MINMATCH + LASTLITERALS <= |source|
    requires Repeats(source, ip - ref, ip, ip + extra + MINMATCH)
    ensures var literals := source[anchor..ip];
      Written(source, Then(ss, Sequence(literals, ip - ref, extra)),
              SequencesBytes(ss) + ([16 * Nibble(|literals|) + Nibble(extra)] + (LiteralBytes(literals) + MatchBytes(ip - ref, extra))),
              ip + extra + MINMATCH)
  {
    hide RunBytes, Repeats, Nibble, Expand, Valid, KeepsMargins;
    Extend(source, ss, SequencesBytes(ss), anchor, Sequence(source[anchor..ip], ip - ref, extra), ip);
  }

  /** Fills the table behind a match and tests whether the next position matches at once. */
  method TestNext(v: Variant, source: seq<byte>, table: array<nat>, ip: nat, ghost t: Trace, ghost bound: nat)
    returns (matches: bool, ref: nat)
    requires |source| <= v.Modulus() + (MFLIMIT - 1) && bound + 3 <= ip == End(t) && ip + MFLIMIT <= |source|
    requires t != Begin && Holds(v, source, table, Entered(t), bound)
    modifies table
    ensures Holds(v, source, table, Searched(t), ip)
    ensures matches <==> HitBehind(v, source, t)
    ensures matches ==> ref == Ref(v, source, Filled(t), ip)
  {
    hide Hash, Read32, Holds, Hit, Ref;
    HoldsLonger(v, source, table, Entered(t), bound, ip - 3);
    Enter(v, source, table, ip - 2, Entered(t));
    assert Filled(t) == Entered(t) + {ip - 2};
    HoldsLonger(v, source, table, Filled(t), ip - 2, ip - 1);
    CellIsRef(v, source, table, Filled(t), ip);
    ref := table[Hash(v, source, ip)];
    Enter(v, source, table, ip, Filled(t));
    matches := IsHit(v, source, ip, ref, Filled(t));
  }

  /** What was done about the next match: `k` failures of a search, or found at once. */
  function Next(t: Trace, s: Sequence, atOnce: bool, k: nat): Trace {
    if atOnce then AtOnce(t, s) else Found(t, s, k)
  }

  /** The match at `ip` was taken by the rules, and the table is filled as far as `reach`. */
  ghost predicate Taken(v: Variant, source: seq<byte>, table: array<nat>, t: Trace, atOnce: bool, k: nat, ip: nat, ref: nat, reach: nat)
    reads table
  {
    && Greedy(v, source, t) && End(t) <= ip <= reach && ip + MINMATCH <= |source|
    && if atOnce then
         && HitBehind(v, source, t) && ip == reach == End(t) && ref == Ref(v, source, Filled(t), ip)
         && Holds(v, source, table, Searched(t), reach)
       else
         && SearchFinds(v, source, t, k) && reach == Probe(End(t) + 1, k) && ip - ref == SearchOffset(v, source, t, k)
         && (ip == End(t) || ref == 0 || source[ip - 1] != source[ref - 1])
         && Holds(v, source, table, Searched(t) + Probes(End(t) + 1, k + 1), reach)
  }

  lemma {:induction false} TakenIsGreedy(v: Variant, source: seq<byte>, table: array<nat>, t: Trace, atOnce: bool, k: nat,
      ip: nat, ref: nat, reach: nat, s: Sequence)
    requires Taken(v, source, table, t, atOnce, k, ip, ref, reach) && ref < ip
    requires s.literals == source[End(t)..ip] && s.offset == ip - ref && Farthest(source, s, ip)
    requires reach + MINMATCH <= ip + s.Count()
    ensures var next := Next(t, s, atOnce, k);
      Greedy(v, source, next) && Holds(v, source, table, Entered(next), reach) && End(next) == ip + s.Count()
  {
    hide Holds, HitAt, HitBehind, NoHitBefore, Ref, Farthest, Probe, Probes, Filled, Searched, TakenAtOnce, TakenBySearch;
    if atOnce {
      AtOnceIsTaken(v, source, table, t, k, ip, ref, reach, s);
    } else {
      SearchedIsTaken(v, source, table, t, k, ip, ref, reach, s);
    }
  }

  lemma {:induction false} AtOnceIsTaken(v: Variant, source: seq<byte>, table: array<nat>, t: Trace, k: nat, ip: nat, ref: nat, reach: nat, s: Sequence)
    requires Taken(v, source, table, t, true, k, ip, ref, reach) && ref < ip
    requires s.literals == source[End(t)..ip] && s.offset == ip - ref && Farthest(source, s, ip)
    ensures TakenAtOnce(v, source, t, s)
  {
    hide Holds, Hit, Ref, Farthest, Filled, Searched, Greedy, Probe, Probes;
  }

  lemma {:induction false} SearchedIsTaken(v: Variant, source: seq<byte>, table: array<nat>, t: Trace, k: nat, ip: nat, ref: nat, reach: nat, s: Sequence)
    requires Taken(v, source, table, t, false, k, ip, ref, reach) && ref < ip
    requires s.literals == source[End(t)..ip] && s.offset == ip - ref && Farthest(source, s, ip)
    requires reach + MINMATCH <= ip + s.Count()
    ensures TakenBySearch(v, source, t, s, k)
  {
    hide Holds, SearchFinds, SearchOffset, InReach, Farthest, Filled, Searched, Greedy, Probe, Probes, CaughtUp, End, LiteralsFrom;
    LiteralsAre(source, s, End(t), ip);
    IsCaughtUp(source, s, End(t), ip, ref);
  }

  lemma LiteralsAre(source: seq<byte>, s: Sequence, e: nat, ip: nat)
    requires e <= ip <= |source| && s.literals == source[e..ip]
    ensures e + |s.literals| == ip && LiteralsFrom(source, s, e)
  {
  }

  lemma IsCaughtUp(source: seq<byte>, s: Sequence, e: nat, ip: nat, ref: nat)
    requires e + |s.literals| == ip <= |source| && ref < ip && s.offset == ip - ref && Farthest(source, s, ip)
    requires ip == e || ref == 0 || source[ip - 1] != source[ref - 1]
    ensures CaughtUp(source, s, e + |s.literals|) && Farthest(source, s, e + |s.literals|)
  {
    hide Farthest;
  }

  /** From a match on: sequences without literals follow as long as the very next position
    * matches again. `anchor` moves to the end of the last match; searching goes on behind it
    * unless the end of the input is near. */
  method EmitMatches(v: Variant, source: seq<byte>, table: array<nat>, dest: array<byte>, ghost t0: Trace,
      token0: nat, op0: nat, ghost anchor0: nat, ip0: nat, ref0: nat, ghost k0: nat, ghost reach0: nat)
    returns (ghost t: Trace, op: nat, anchor: nat, nearEnd: bool)
    requires MINLENGTH <= |source| <= v.Modulus() + (MFLIMIT - 1)
    requires Taken(v, source, table, t0, false, k0, ip0, ref0, reach0) && End(t0) == anchor0
    requires op0 <= dest.Length && Pending(source, SequencesOf(t0), dest[..op0], anchor0, ip0, ref0, reach0)
    requires token0 == |SequencesBytes(SequencesOf(t0))| && CompressBound(|source|) <= dest.Length
    modifies table, dest
    ensures anchor0 < anchor == End(t) && op <= dest.Length && Written(source, SequencesOf(t), dest[..op], anchor)
    ensures t != Begin && Greedy(v, source, t)
    ensures if nearEnd then anchor + MFLIMIT > |source| else anchor + MFLIMIT <= |source| && !HitBehind(v, source, t)
    ensures !nearEnd ==> Holds(v, source, table, Searched(t), anchor)
  {
    hide Repeats, Extension, Expand, Valid, KeepsMargins, SequencesBytes, LiteralBytes, Taken, Greedy, Farthest, Holds,
      HitBehind, Entered, End;
    t, op, anchor, nearEnd := t0, op0, ip0, false;
    var token: nat, ip: nat, ref: nat := token0, ip0, ref0;
    ghost var reach, from, atOnce := reach0, anchor0, false;
    while true
      invariant anchor0 <= from <= ip <= reach && reach + MFLIMIT <= |source| && End(t) == from
      invariant Taken(v, source, table, t, atOnce, k0, ip, ref, reach)
      invariant op <= dest.Length && Pending(source, SequencesOf(t), dest[..op], from, ip, ref, reach)
      invariant token == |SequencesBytes(SequencesOf(t))|
      decreases |source| - ip
    {
      ghost var s;
      ghost var matchAt := ip;
      s, ip, op := EmitSequence(source, dest, SequencesOf(t), token, op, from, ip, ref, reach);
      TakenIsGreedy(v, source, table, t, atOnce, k0, matchAt, ref, reach, s);
      t := Next(t, s, atOnce, k0);
      anchor := ip;
      if ip > |source| - MFLIMIT { nearEnd := true; return; }
      var matches;
      matches, ref := TestNext(v, source, table, ip, t, reach);
      if !matches { return; }
      token := op;
      HitIsPending(v, source, t, dest[..op], ip, ref);
      dest[token] := 0;
      op := op + 1;
      assert dest[..op] == dest[..token] + [0];
      reach, from, atOnce := ip, ip, true;
      IsTakenAtOnce(v, source, table, t, k0, ip, ref);
    }
  }

  lemma {:induction false} IsTakenAtOnce(v: Variant, source: seq<byte>, table: array<nat>, t: Trace, k: nat, ip: nat, ref: nat)
    requires Greedy(v, source, t) && HitBehind(v, source, t) && ip == End(t) && ref == Ref(v, source, Filled(t), ip)
    requires Holds(v, source, table, Searched(t), ip)
    ensures Taken(v, source, table, t, true, k, ip, ref, ip)
  {
    hide Holds, Hit, Greedy, Ref;
  }

  lemma {:induction false} HitIsPending(v: Variant, source: seq<byte>, t: Trace, out: seq<byte>, ip: nat, ref: nat)
    requires HitBehind(v, source, t) && ip == End(t) && ref == Ref(v, source, Filled(t), ip)
    requires Written(source, SequencesOf(t), out, ip)
    ensures Pending(source, SequencesOf(t), out + [0], ip, ip, ref, ip) && |out| == |SequencesBytes(SequencesOf(t))|
  {
    hide Ref, Written, Pending, Repeats;
    PendingNext(source, SequencesOf(t), out, ip, ref);
  }

  /** A match at once: an empty token behind what is written. */
  lemma PendingNext(source: seq<byte>, ss: Sequences, out: seq<byte>, ip: nat, ref: nat)
    requires Written(source, ss, out, ip) && ip + MFLIMIT <= |source|
    requires ref < ip && ip - ref <= MAX_DISTANCE && Repeats(source, ip - ref, ip, ip + MINMATCH)
    ensures Pending(source, ss, out + [0], ip, ip, ref, ip) && |out| == |SequencesBytes(ss)|
  {
    NoLiterals(source, ip);
  }

  lemma NoLiterals(source: seq<byte>, ip: nat)
    requires ip <= |source|
    ensures LiteralBytes(source[ip..ip]) == []
  {
  }

  /** The literals that end the block. */
  method EmitLast(source: seq<byte>, dest: array<byte>, op0: nat, anchor: nat) returns (op: nat)
    requires anchor <= |source| && CompressBound(|source|) <= dest.Length && 255 * op0 <= 256 * anchor
    modifies dest
    ensures op <= dest.Length && dest[..op] == old(dest[..op0]) + LastBytes(source[anchor..])
    ensures op <= CompressBound(|source|)
  {
    var lastRun := |source| - anchor;
    hide RunBytes, Nibble, Extension;
    SequenceCost(Sequence(source[anchor..], 1, 0));
    ghost var before, t: seq<byte> := dest[..op0], [16 * Nibble(lastRun)];
    op := EmitToken(dest, op0, lastRun);
    CopyLiterals(source, anchor, dest, op);
    op := op + lastRun;
  }

  /** The block that `source` is compressed to, and what `LZ4_compressBound` promises of it. */
  ghost predicate Compresses(source: seq<byte>, b: Block, out: seq<byte>) {
    IsBlock(b) && Meaning(b) == source && out == Serialize(b) && |out| <= CompressBound(|source|)
  }

  /** The main loop: find a match, extend it backwards, emit it and those that follow at once. */
  method CompressSequences(v: Variant, source: seq<byte>, dest: array<byte>)
    returns (op: nat, anchor: nat, ghost t: Trace)
    requires MINLENGTH <= |source| <= v.Modulus() + (MFLIMIT - 1) && CompressBound(|source|) <= dest.Length
    modifies dest
    ensures op <= dest.Length && Written(source, SequencesOf(t), dest[..op], anchor)
    ensures Greedy(v, source, t) && Exhausted(v, source, t)
  {
    hide Hash, Read32, Repeats, Extension, Expand, Valid, KeepsMargins, SequencesBytes, Holds, Greedy, HitBehind, NeverHit,
      HitAt, NoHitBefore, Entered, End, Written, Ref, Probe, Probes;
    op, anchor, t := 0, 0, Begin;
    StartIsWritten(source);
    var table := new nat[v.Cells()](_ => 0);
    table[Hash(v, source, 0)] := 0;
    TableStarts(v, source, table);
    var ip := 1;
    while true
      invariant anchor == End(t) && ip == anchor + 1 && (t == Begin || anchor + MFLIMIT <= |source|)
      invariant Holds(v, source, table, Searched(t), anchor) && fresh(table)
      invariant op <= dest.Length && Written(source, SequencesOf(t), dest[..op], anchor)
      invariant Greedy(v, source, t) && !HitBehind(v, source, t)
      decreases |source| - anchor
    {
      var found, ref, nearEnd;
      ghost var k;
      found, ip, ref, k := FindMatch(v, source, table, ip, Searched(t));
      if !found {
        SearchedIsExhausted(v, source, t);
        return;
      }
      t, op, anchor, nearEnd := EmitFound(v, source, table, dest, t, op, anchor, ip, ref, k);
      if nearEnd {
        NearEndIsExhausted(v, source, t);
        return;
      }
      ip := anchor + 1;
    }
  }

  lemma {:induction false} SearchedIsExhausted(v: Variant, source: seq<byte>, t: Trace)
    requires !HitBehind(v, source, t) && NeverHit(v, source, Searched(t), End(t) + 1)
    ensures Exhausted(v, source, t)
  {
    hide HitBehind, NeverHit;
  }

  lemma {:induction false} NearEndIsExhausted(v: Variant, source: seq<byte>, t: Trace)
    requires t != Begin && End(t) + MFLIMIT > |source|
    ensures Exhausted(v, source, t)
  {
  }

  /** Extends a match that was found backwards, and emits it and those that follow at once. */
  method EmitFound(v: Variant, source: seq<byte>, table: array<nat>, dest: array<byte>, ghost t0: Trace,
      op0: nat, anchor0: nat, ip0: nat, ref0: nat, ghost k: nat)
    returns (ghost t: Trace, op: nat, anchor: nat, nearEnd: bool)
    requires MINLENGTH <= |source| <= v.Modulus() + (MFLIMIT - 1) && CompressBound(|source|) <= dest.Length
    requires anchor0 == End(t0) && (t0 == Begin || anchor0 + MFLIMIT <= |source|)
    requires Greedy(v, source, t0) && !HitBehind(v, source, t0)
    requires op0 <= dest.Length && Written(source, SequencesOf(t0), dest[..op0], anchor0)
    requires HitAt(v, source, Searched(t0), anchor0 + 1, k) && NoHitBefore(v, source, Searched(t0), anchor0 + 1, k)
    requires ip0 == Probe(anchor0 + 1, k) && ref0 == Ref(v, source, Searched(t0) + Probes(anchor0 + 1, k), ip0)
    requires Holds(v, source, table, Searched(t0) + Probes(anchor0 + 1, k + 1), ip0)
    modifies table, dest
    ensures anchor0 < anchor == End(t) && op <= dest.Length && Written(source, SequencesOf(t), dest[..op], anchor)
    ensures t != Begin && Greedy(v, source, t)
    ensures if nearEnd then anchor + MFLIMIT > |source| else anchor + MFLIMIT <= |source| && !HitBehind(v, source, t)
    ensures !nearEnd ==> Holds(v, source, table, Searched(t), anchor)
  {
    hide Hash, Read32, Repeats, Extension, Expand, Valid, KeepsMargins, SequencesBytes, Holds, Greedy, HitBehind, HitAt,
      NoHitBefore, Taken, Pending, Entered, Ref, Probe, Probes, LiteralBytes, Nibble;
    FoundRepeats(v, source, Searched(t0), anchor0 + 1, k);
    var ip, ref := CatchUp(source, anchor0, ip0, ref0);
    TakenByCatchUp(v, source, table, t0, k, ip, ref, ip0, ref0);
    SequenceCost(Sequence(source[anchor0..ip], 1, 0));
    op := EmitLiterals(source, dest, op0, anchor0, ip);
    IsPending(source, SequencesOf(t0), dest[..op], anchor0, ip, ref, ip0);
    t, op, anchor, nearEnd := EmitMatches(v, source, table, dest, t0, op0, op, anchor0, ip, ref, k, ip0);
  }

  lemma TableStarts(v: Variant, source: seq<byte>, table: array<nat>)
    requires table.Length == v.Cells() && forall h | 0 <= h < table.Length :: table[h] == 0
    ensures Holds(v, source, table, Searched(Begin), 0) && Greedy(v, source, Begin) && !HitBehind(v, source, Begin) && End(Begin) == 0
  {
  }

  /** What is known of a position that a search found. */
  lemma {:induction false} FoundRepeats(v: Variant, source: seq<byte>, entered: set<nat>, p: nat, k: nat)
    requires 0 < p && HitAt(v, source, entered, p, k)
    ensures var ip := Probe(p, k); var ref := Ref(v, source, entered + Probes(p, k), ip);
      p <= ip && ip + MFLIMIT <= |source| && ip - ref <= MAX_DISTANCE && Repeats(source, ip - ref, ip, ip + MINMATCH)
  {
    var ip := Probe(p, k);
    assert Hit(v, source, entered + Probes(p, k), ip) && Probe(p, k + 1) > ip;
    hide HitAt, Ref, Repeats, Probe, Probes;
  }

  lemma {:induction false} TakenByCatchUp(v: Variant, source: seq<byte>, table: array<nat>, t: Trace, k: nat, ip: nat, ref: nat, reach: nat, from: nat)
    requires Greedy(v, source, t) && !HitBehind(v, source, t) && (t == Begin || End(t) + MFLIMIT <= |source|)
    requires HitAt(v, source, Searched(t), End(t) + 1, k) && NoHitBefore(v, source, Searched(t), End(t) + 1, k)
    requires reach == Probe(End(t) + 1, k) && from == Ref(v, source, Searched(t) + Probes(End(t) + 1, k), reach)
    requires Holds(v, source, table, Searched(t) + Probes(End(t) + 1, k + 1), reach)
    requires End(t) <= ip <= reach && ip - ref == reach - from && reach + MINMATCH <= |source|
    requires ip == End(t) || ref == 0 || source[ip - 1] != source[ref - 1]
    ensures Taken(v, source, table, t, false, k, ip, ref, reach)
  {
    hide Holds, Hit, Greedy, Ref, HitBehind, HitAt, NoHitBefore;
  }

  lemma IsPending(source: seq<byte>, ss: Sequences, out: seq<byte>, anchor: nat, ip: nat, ref: nat, reach: nat)
    requires anchor <= ip <= reach && reach + MFLIMIT <= |source| && ref < ip && ip - ref <= MAX_DISTANCE
    requires Repeats(source, ip - ref, ip, reach + MINMATCH) && Written(source, ss, SequencesBytes(ss), anchor)
    requires out == SequencesBytes(ss) + ([16 * Nibble(ip - anchor)] + LiteralBytes(source[anchor..ip]))
    ensures Pending(source, ss, out, anchor, ip, ref, reach)
  {
    hide Repeats, Written;
  }

  lemma StartIsWritten(source: seq<byte>)
    ensures Written(source, Start, [], 0)
  {
  }

  /** The 16-bit table is refused for inputs it cannot address. */
  method CompressBlock(v: Variant, source: seq<byte>, dest: array<byte>) returns (op: nat, ghost b: Block, ghost t: Trace)
    requires |source| < 0x8000_0000 && CompressBound(|source|) <= dest.Length
    modifies dest
    ensures v.small && |source| > LZ4_64KLIMIT ==> op == 0
    ensures !(v.small && |source| > LZ4_64KLIMIT) ==> op <= dest.Length && Compresses(source, b, dest[..op])
    ensures !(v.small && |source| > LZ4_64KLIMIT) ==> GreedyBlock(v, source, b, t)
  {
    hide Compresses, CompressBound, LastBytes, Written, Greedy, Exhausted;
    op, b, t := 0, Block(Start, source), Begin;
    var anchor := 0;
    StartIsWritten(source);
    ShortIsExhausted(v, source);
    assert dest[..0] == [];
    if |source| >= MINLENGTH {
      if v.small && |source| > LZ4_64KLIMIT { return; }
      op, anchor, t := CompressSequences(v, source, dest);
    }
    WrittenIsBlock(source, SequencesOf(t), dest[..op], anchor);
    op := EmitLast(source, dest, op, anchor);
    b := Block(SequencesOf(t), source[anchor..]);
  }

  /** Inputs too short for a match. */
  lemma ShortIsExhausted(v: Variant, source: seq<byte>)
    ensures Greedy(v, source, Begin) && (|source| < MINLENGTH ==> Exhausted(v, source, Begin))
  {
    if |source| < MINLENGTH { OutOfReach(v, source, Searched(Begin), 1, 0); }
  }

  lemma WrittenIsBlock(source: seq<byte>, ss: Sequences, out: seq<byte>, anchor: nat)
    requires Written(source, ss, out, anchor)
    ensures anchor <= |source| && 255 * |out| <= 256 * anchor
    ensures var last := source[anchor..]; var all := out + LastBytes(last);
      |all| <= CompressBound(|source|) ==> Compresses(source, Block(ss, last), all)
  {
    hide LastBytes, SequencesBytes, Expand;
    assert source[..anchor] + source[anchor..] == source;
  }

  /** LZ4_compress, which picks the table by the input size. */
  method Compress(source: seq<byte>, dest: array<byte>) returns (r: nat, ghost b: Block, ghost t: Trace)
    requires |source| < 0x8000_0000 && CompressBound(|source|) <= dest.Length
    modifies dest
    ensures r <= dest.Length && Compresses(source, b, dest[..r])
    ensures GreedyBlock(Variant(|source| < LZ4_64KLIMIT), source, b, t)
  {
    r, b, t := CompressBlock(Variant(|source| < LZ4_64KLIMIT), source, dest);
  }

  /** Equal bytes, 14 at least, are compressed to one literal, one match and five literals. */
  lemma EqualBytes(v: Variant, source: seq<byte>, out: seq<byte>, b: Block, t: Trace)
    requires AllEqual(source) && |source| > MINLENGTH && Compresses(source, b, out) && GreedyBlock(v, source, b, t)
    ensures |out| == if |source| < 25 then 10 else 11 + (|source| - 25) / 255
  {
    hide CompressBound, RunSequence, Serialize, GreedyBlock;
    RunBlock(v, source, b, t);
    RunBlockSize(source, b);
  }

  /** Compressing and then decompressing, whatever output limit of at least the original
    * size the decoder is given, returns exactly the original. */
  method RoundTrip(source: seq<byte>, limit: nat) returns (r: int, output: array<byte>)
    requires |source| < 0x8000_0000 && |source| <= limit
    ensures r == |source| <= output.Length == limit && output[..r] == source
  {
    var packed := new byte[CompressBound(|source|)];
    var size, b, _ := Compress(source, packed);
    output := new byte[limit];
    DecompressedSerialized(b, limit);
    r := DecompressSafe(packed[..size], output);
  }
}
