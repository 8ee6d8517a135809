/** Which matches the compressor takes, told from the positions it entered in its table. */
module Lz4Search {
  import opened Bytes
  import opened Lz4Format

  /** Two to the power of SKIPSTRENGTH. */
  const ATTEMPTS_PER_STEP := 64

  /** The table size and the width of its entries: 16 bits for small inputs, else 32. */
  datatype Variant = Variant(small: bool) {
    function Cells(): nat { if small then 0x2000 else 0x1000 }
    function Modulus(): nat { if small then 0x1_0000 else 0x1_0000_0000 }
    function Shift(): nat { if small then 0x8_0000 else 0x10_0000 }
  }

  /** Four bytes as a little-endian word. */
  function Read32(source: seq<byte>, p: nat): (r: nat)
    requires p + 4 <= |source|
    ensures r < 0x1_0000_0000
  {
    var b0, b1, b2, b3: int := source[p], source[p + 1], source[p + 2], source[p + 3];
    b0 + 0x100 * (b1 + 0x100 * (b2 + 0x100 * b3))
  }

  function Hash(v: Variant, source: seq<byte>, p: nat): (h: nat)
    requires p + 4 <= |source|
    ensures h < v.Cells()
  {
    Read32(source, p) * 2654435761 % 0x1_0000_0000 / v.Shift()
  }

  /** The bytes from `from` up to `to` repeat what stands `offset` before them. */
  ghost predicate Repeats(source: seq<byte>, offset: nat, from: nat, to: nat) {
    1 <= offset <= from <= to <= |source| && forall x | from <= x < to :: source[x] == source[x - offset]
  }

  lemma SameDigits(a: byte, x: nat, b: byte, y: nat)
    requires a as int + 0x100 * x == b as int + 0x100 * y
    ensures a == b && x == y
  {
  }

  /** Equal words are equal bytes. */
  lemma SameWord(source: seq<byte>, ref: nat, ip: nat)
    requires ref < ip && ip + 4 <= |source| && Read32(source, ref) == Read32(source, ip)
    ensures Repeats(source, ip - ref, ip, ip + 4)
  {
    var r0, r1, r2, r3: int := source[ref], source[ref + 1], source[ref + 2], source[ref + 3];
    var i0, i1, i2, i3: int := source[ip], source[ip + 1], source[ip + 2], source[ip + 3];
    SameDigits(r0, r1 + 0x100 * (r2 + 0x100 * r3), i0, i1 + 0x100 * (i2 + 0x100 * i3));
    SameDigits(r1, r2 + 0x100 * r3, i1, i2 + 0x100 * i3);
    SameDigits(r2, r3, i2, i3);
  }

  /** Equal bytes are equal words. */
  lemma SameBytes(source: seq<byte>, ref: nat, ip: nat)
    requires ref < ip && Repeats(source, ip - ref, ip, ip + 4)
    ensures Read32(source, ref) == Read32(source, ip)
  {
    var d := ip - ref;
    assert source[ip] == source[ip - d] && source[ip + 1] == source[ip + 1 - d];
    assert source[ip + 2] == source[ip + 2 - d] && source[ip + 3] == source[ip + 3 - d];
  }

  // ---- the table ----

  /** The latest position entered up to `bound` with hash `h`, or the zero that cells start with. */
  function Entry(v: Variant, source: seq<byte>, entered: set<nat>, h: nat, bound: nat): (o: nat)
    ensures o <= bound
    ensures o != 0 ==> o in entered && o + 4 <= |source| && Hash(v, source, o) == h
  {
    if bound == 0 then 0
    else if bound in entered && bound + 4 <= |source| && Hash(v, source, bound) == h then bound
    else Entry(v, source, entered, h, bound - 1)
  }

  lemma {:induction false} EntrySkips(v: Variant, source: seq<byte>, entered: set<nat>, h: nat, low: nat, high: nat)
    requires low <= high && forall q | low < q <= high :: q !in entered
    ensures Entry(v, source, entered, h, high) == Entry(v, source, entered, h, low)
  {
    if low < high { EntrySkips(v, source, entered, h, low, high - 1); }
  }

  /** Positions beyond the bound do not matter. */
  lemma {:induction false} EntryAgrees(v: Variant, source: seq<byte>, s: set<nat>, t: set<nat>, h: nat, bound: nat)
    requires forall q: nat | 0 < q <= bound :: q in s <==> q in t
    ensures Entry(v, source, s, h, bound) == Entry(v, source, t, h, bound)
  {
    if bound > 0 { EntryAgrees(v, source, s, t, h, bound - 1); }
  }

  // ---- hits ----

  /** The position that a match at `p` refers to. */
  function Ref(v: Variant, source: seq<byte>, entered: set<nat>, p: nat): (o: nat)
    requires 0 < p && p + 4 <= |source|
    ensures o < p
  {
    Entry(v, source, entered, Hash(v, source, p), p - 1)
  }

  /** The entry for `p` is near, and the same four bytes stand there. */
  ghost predicate Hit(v: Variant, source: seq<byte>, entered: set<nat>, p: nat)
    requires 0 < p && p + 4 <= |source|
  {
    var o := Ref(v, source, entered, p);
    p - o <= MAX_DISTANCE && Repeats(source, p - o, p, p + MINMATCH)
  }

  // ---- the search ----

  /** The k-th position looked at when searching from `p` on: steps grow after every 64 failures. */
  function Probe(p: nat, k: nat): (q: nat)
    ensures p + k <= q
  {
    if k == 0 then p else Probe(p, k - 1) + (ATTEMPTS_PER_STEP + 2 + k) / ATTEMPTS_PER_STEP
  }

  function Probes(p: nat, k: nat): set<nat> {
    if k == 0 then {} else Probes(p, k - 1) + {Probe(p, k - 1)}
  }

  lemma {:induction false} ProbesAre(p: nat, k: nat)
    ensures forall q | q in Probes(p, k) :: p <= q < Probe(p, k)
  {
    if k > 0 { ProbesAre(p, k - 1); }
  }

  /** Whether the k-th position is looked up, which needs the one behind it to be in reach. */
  predicate InReach(source: seq<byte>, p: nat, k: nat) {
    Probe(p, k + 1) + MFLIMIT <= |source|
  }

  /** The k-th position is in reach and a hit. */
  ghost predicate HitAt(v: Variant, source: seq<byte>, entered: set<nat>, p: nat, k: nat)
    requires 0 < p
  {
    InReach(source, p, k) && Hit(v, source, entered + Probes(p, k), Probe(p, k))
  }

  ghost predicate NoHitBefore(v: Variant, source: seq<byte>, entered: set<nat>, p: nat, k: nat)
    requires 0 < p
  {
    forall i: nat | i < k :: !HitAt(v, source, entered, p, i)
  }

  ghost predicate NeverHit(v: Variant, source: seq<byte>, entered: set<nat>, p: nat)
    requires 0 < p
  {
    forall k: nat :: !HitAt(v, source, entered, p, k)
  }

  lemma {:induction false} ProbesGrow(p: nat, i: nat, k: nat)
    requires i <= k
    ensures Probe(p, i) <= Probe(p, k)
  {
    if i < k { ProbesGrow(p, i, k - 1); }
  }

  /** Once a position is out of reach all later ones are. */
  lemma OutOfReach(v: Variant, source: seq<byte>, entered: set<nat>, p: nat, k: nat)
    requires 0 < p && !InReach(source, p, k) && NoHitBefore(v, source, entered, p, k)
    ensures NeverHit(v, source, entered, p)
  {
    hide Probe, Hit;
    forall i: nat ensures !HitAt(v, source, entered, p, i) {
      if i >= k { ProbesGrow(p, k + 1, i + 1); } else { assert !HitAt(v, source, entered, p, i); }
    }
  }

  // ---- all matches of a block ----

  /** How the sequences came about: behind some search, or at once behind another match. */
  datatype Trace = Begin | Found(before: Trace, s: Sequence, k: nat) | AtOnce(before: Trace, s: Sequence)

  function SequencesOf(t: Trace): Sequences {
    match t
    case Begin => Start
    case Found(before, s, _) => Then(SequencesOf(before), s)
    case AtOnce(before, s) => Then(SequencesOf(before), s)
  }

  /** Where the last match ended. */
  function End(t: Trace): nat {
    TotalSize(SequencesOf(t))
  }

  /** The positions entered up to the last match. */
  function Entered(t: Trace): set<nat>
    decreases t, 0
  {
    match t
    case Begin => {}
    case Found(before, s, k) => Searched(before) + Probes(End(before) + 1, k + 1)
    case AtOnce(before, s) => Searched(before)
  }

  /** Behind a match the position two bytes back is entered. */
  function Filled(t: Trace): set<nat>
    decreases t, 1
  {
    Entered(t) + if End(t) < 2 then {} else {End(t) - 2}
  }

  /** And then the position where the match ended. */
  function Searched(t: Trace): set<nat>
    decreases t, 2
  {
    Filled(t) + {End(t)}
  }

  /** The position behind the last match is far enough from the end, and a hit. */
  ghost predicate HitBehind(v: Variant, source: seq<byte>, t: Trace) {
    t != Begin && 0 < End(t) && End(t) + MFLIMIT <= |source| && Hit(v, source, Filled(t), End(t))
  }

  /** A match that goes on as long as bytes agree, up to the last five. */
  ghost predicate Farthest(source: seq<byte>, s: Sequence, from: nat) {
    var to := from + s.Count();
    && Repeats(source, s.offset, from, to) && to + LASTLITERALS <= |source|
    && (to + LASTLITERALS < |source| ==> source[to] != source[to - s.offset])
  }

  /** A match that begins at the first byte not yet encoded, or at the first that agrees. */
  ghost predicate CaughtUp(source: seq<byte>, s: Sequence, from: nat) {
    s.offset <= from <= |source| && (s.literals == [] || from == s.offset || source[from - 1] != source[from - 1 - s.offset])
  }

  /** A match right behind another one: there is a hit, and it is counted to its end. */
  ghost predicate TakenAtOnce(v: Variant, source: seq<byte>, t: Trace, s: Sequence) {
    && HitBehind(v, source, t) && s.literals == [] && s.offset == End(t) - Ref(v, source, Filled(t), End(t))
    && Farthest(source, s, End(t))
  }

  predicate LiteralsFrom(source: seq<byte>, s: Sequence, from: nat) {
    from + |s.literals| <= |source| && s.literals == source[from..from + |s.literals|]
  }

  /** There is no hit at once, and searching from the next position on finds one after `k` failures. */
  ghost predicate SearchFinds(v: Variant, source: seq<byte>, t: Trace, k: nat) {
    && !HitBehind(v, source, t) && (t == Begin || End(t) + MFLIMIT <= |source|)
    && HitAt(v, source, Searched(t), End(t) + 1, k) && NoHitBefore(v, source, Searched(t), End(t) + 1, k)
  }

  /** How far back the match lies that is found so. */
  function SearchOffset(v: Variant, source: seq<byte>, t: Trace, k: nat): (d: nat)
    requires InReach(source, End(t) + 1, k)
    ensures d >= 1
  {
    var p := Probe(End(t) + 1, k);
    p - Ref(v, source, Searched(t) + Probes(End(t) + 1, k), p)
  }

  /** A match behind some literals: there is no hit at once, and the search finds this one first; it is
    * caught up and counted to its end. */
  ghost predicate TakenBySearch(v: Variant, source: seq<byte>, t: Trace, s: Sequence, k: nat) {
    var e := End(t);
    var p := Probe(e + 1, k);
    && SearchFinds(v, source, t, k) && s.offset == SearchOffset(v, source, t, k)
    && e + |s.literals| <= p && p + MINMATCH <= e + s.Size() && LiteralsFrom(source, s, e)
    && CaughtUp(source, s, e + |s.literals|) && Farthest(source, s, e + |s.literals|)
  }

  /** Every match is the one that the table offers first. */
  ghost predicate Greedy(v: Variant, source: seq<byte>, t: Trace) {
    match t
    case Begin => true
    case AtOnce(before, s) => Greedy(v, source, before) && TakenAtOnce(v, source, before, s)
    case Found(before, s, k) => Greedy(v, source, before) && TakenBySearch(v, source, before, s, k)
  }

  /** Nothing more is found: the end is near, or no position in reach is a hit. */
  ghost predicate Exhausted(v: Variant, source: seq<byte>, t: Trace) {
    || (t != Begin && End(t) + MFLIMIT > |source|)
    || (!HitBehind(v, source, t) && NeverHit(v, source, Searched(t), End(t) + 1))
  }

  /** The block has the matches that the rules take, and all of them. */
  ghost predicate GreedyBlock(v: Variant, source: seq<byte>, b: Block, t: Trace) {
    b.sequences == SequencesOf(t) && Greedy(v, source, t) && Exhausted(v, source, t)
  }

  // ---- there is only one such block ----

  function Length(t: Trace): nat {
    if t == Begin then 0 else 1 + Length(t.before)
  }

  /** The first `n` steps. */
  function Prefix(t: Trace, n: nat): (r: Trace)
    requires n <= Length(t)
    ensures Length(r) == n
    ensures n == Length(t) ==> r == t
  {
    if n == Length(t) then t else Prefix(t.before, n)
  }

  lemma {:induction false} FirstHitIsOne(v: Variant, source: seq<byte>, entered: set<nat>, p: nat, i: nat, k: nat)
    requires 0 < p && HitAt(v, source, entered, p, i) && NoHitBefore(v, source, entered, p, i)
    requires HitAt(v, source, entered, p, k) && NoHitBefore(v, source, entered, p, k)
    ensures i == k
  {
    hide HitAt;
  }

  lemma SameBeginning(source: seq<byte>, s: Sequence, t: Sequence, e: nat, p: nat)
    requires s.offset == t.offset && e + |s.literals| <= p && e + |t.literals| <= p
    requires p + MINMATCH <= e + s.Size() && p + MINMATCH <= e + t.Size()
    requires CaughtUp(source, s, e + |s.literals|) && Farthest(source, s, e + |s.literals|)
    requires CaughtUp(source, t, e + |t.literals|) && Farthest(source, t, e + |t.literals|)
    ensures |s.literals| == |t.literals|
  {
    var f, g := e + |s.literals|, e + |t.literals|;
    hide Repeats;
    if f < g { RepeatsAt(source, s.offset, f, f + s.Count(), g - 1); }
    if g < f { RepeatsAt(source, t.offset, g, g + t.Count(), f - 1); }
  }

  lemma RepeatsAt(source: seq<byte>, offset: nat, from: nat, to: nat, x: nat)
    requires Repeats(source, offset, from, to) && from <= x < to
    ensures offset <= x < |source| && source[x] == source[x - offset] && offset <= from
  {
  }

  lemma SameEnd(source: seq<byte>, s: Sequence, t: Sequence, from: nat)
    requires s.offset == t.offset && Farthest(source, s, from) && Farthest(source, t, from)
    ensures s.Count() == t.Count()
  {
    hide Repeats;
    if s.Count() < t.Count() { RepeatsAt(source, t.offset, from, from + t.Count(), from + s.Count()); }
    if t.Count() < s.Count() { RepeatsAt(source, s.offset, from, from + s.Count(), from + t.Count()); }
  }

  /** The next step is determined by those before. */
  lemma {:induction false} SameStep(v: Variant, source: seq<byte>, a: Trace, b: Trace)
    requires Greedy(v, source, a) && Greedy(v, source, b) && a != Begin && b != Begin && a.before == b.before
    ensures a == b
  {
    hide HitBehind, HitAt, NoHitBefore, Ref, Farthest, CaughtUp, Entered, Filled, Searched;
    var t := a.before;
    var e := End(t);
    if a.Found? {
      FirstHitIsOne(v, source, Searched(t), e + 1, a.k, b.k);
      SameBeginning(source, a.s, b.s, e, Probe(e + 1, a.k));
      SameEnd(source, a.s, b.s, e + |a.s.literals|);
    } else {
      SameEnd(source, a.s, b.s, e);
    }
  }

  lemma {:induction false} PrefixIsGreedy(v: Variant, source: seq<byte>, t: Trace, n: nat)
    requires Greedy(v, source, t) && n <= Length(t)
    ensures Greedy(v, source, Prefix(t, n))
  {
    if n < Length(t) { PrefixIsGreedy(v, source, t.before, n); }
  }

  lemma {:induction false} SameLength(v: Variant, source: seq<byte>, a: Trace, b: Trace)
    requires Greedy(v, source, a) && Greedy(v, source, b) && Length(a) == Length(b)
    ensures a == b
  {
    hide HitBehind, HitAt, NoHitBefore, Ref, Farthest, CaughtUp, Entered, Filled, Searched;
    if a != Begin {
      SameLength(v, source, a.before, b.before);
      SameStep(v, source, a, b);
    }
  }

  /** Where nothing more is found there is no next step. */
  lemma {:induction false} NoStepBehind(v: Variant, source: seq<byte>, a: Trace, b: Trace)
    requires Exhausted(v, source, a) && Greedy(v, source, b) && b != Begin
    ensures b.before != a
  {
    hide Hit, HitAt, NoHitBefore, Ref, Farthest, CaughtUp, Entered, Filled, Searched;
  }

  lemma {:induction false} PrefixBefore(t: Trace, n: nat)
    requires n < Length(t)
    ensures Prefix(t, n + 1) != Begin && Prefix(t, n + 1).before == Prefix(t, n)
  {
    if n + 1 < Length(t) { PrefixBefore(t.before, n); }
  }

  lemma {:induction false} NotLonger(v: Variant, source: seq<byte>, a: Trace, b: Trace)
    requires Greedy(v, source, a) && Exhausted(v, source, a) && Greedy(v, source, b)
    ensures Length(b) <= Length(a)
  {
    hide Greedy, Exhausted;
    var n := Length(a);
    if n < Length(b) {
      PrefixIsGreedy(v, source, b, n);
      PrefixIsGreedy(v, source, b, n + 1);
      SameLength(v, source, a, Prefix(b, n));
      PrefixBefore(b, n);
      NoStepBehind(v, source, a, Prefix(b, n + 1));
    }
  }

  /** The rules leave no choice: an input has one such block. */
  lemma OneTrace(v: Variant, source: seq<byte>, a: Trace, b: Trace)
    requires Greedy(v, source, a) && Exhausted(v, source, a) && Greedy(v, source, b) && Exhausted(v, source, b)
    ensures a == b
  {
    hide Greedy, Exhausted;
    NotLonger(v, source, a, b);
    NotLonger(v, source, b, a);
    SameLength(v, source, a, b);
  }
}
