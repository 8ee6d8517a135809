/** qlz_decompress: replays literals and matches, hashing what it writes two bytes late, so that
  * its table agrees with the one of the compressor wherever a match looks. */
module QuickLzDecompress {
  import opened Bytes
  import opened QuickLzFormat

  /** `out` holds the data below `dst`. */
  ghost predicate Holds(out: array<byte>, data: seq<byte>, dst: nat)
    reads out
  {
    dst <= |data| && dst <= out.Length && forall x | 0 <= x < dst :: out[x] == data[x]
  }

  /** The table knows every position the data's owner would find up to `bound`. Entries for
    * other hash values may be stale. */
  ghost predicate Knows(table: array<int>, data: seq<byte>, hashed: set<nat>, bound: int)
    reads table
  {
    table.Length == HASH_VALUES
    && forall h | 0 <= h < HASH_VALUES :: Latest(hashed, data, h, bound) != NONE ==> table[h] == Latest(hashed, data, h, bound)
  }

  /** How far hashing lags: everything hashed so far lies three bytes behind `dst`, and
    * everything not yet looked at still has to be hashed. */
  ghost predicate Lags(hashed: set<nat>, lastHashed: int, dst: nat) {
    && -1 <= lastHashed && dst - 3 <= lastHashed < dst
    && (forall q | q in hashed && q <= lastHashed :: q <= dst - 3)
    && (forall q: nat | lastHashed < q < dst :: q in hashed)
  }

  method UpdateHashUpto(table: array<int>, out: array<byte>, lastHashed0: int, max: int,
      ghost data: seq<byte>, ghost hashed: set<nat>)
    returns (lastHashed: int)
    requires -1 <= lastHashed0 && (max > lastHashed0 ==> Holds(out, data, max + 3))
    requires forall q: nat | lastHashed0 < q <= max :: q in hashed
    requires Knows(table, data, hashed, lastHashed0)
    modifies table
    ensures lastHashed == Max(lastHashed0, max) && Knows(table, data, hashed, lastHashed)
  {
    lastHashed := lastHashed0;
    while lastHashed < max
      invariant lastHashed0 <= lastHashed <= Max(lastHashed0, max) && Knows(table, data, hashed, lastHashed)
    {
      lastHashed := lastHashed + 1;
      table[HashBytes(out[lastHashed], out[lastHashed + 1], out[lastHashed + 2])] := lastHashed;
    }
  }

  /** memcpy_up: 4 bytes at a time in steps of 3, so that a source three bytes back works. */
  method MemcpyUp(out: array<byte>, dst: nat, src: nat, n: nat, ghost data: seq<byte>)
    requires Holds(out, data, dst) && SameBytes(data, src, dst, n) && src + MINOFFSET < dst
    requires 1 <= n && dst + n + 3 <= out.Length
    modifies out
    ensures Holds(out, data, dst + n)
  {
    var f := 0;
    while true
      invariant 0 <= f < n + 3 && (f == 0 || f < n)
      invariant forall x | 0 <= x < dst + f :: out[x] == data[x]
      decreases n - f
    {
      var w := out[src + f..src + f + 4];
      forall i | 0 <= i < 4 {
        out[dst + f + i] := w[i];
      }
      assert forall x | dst + f <= x < dst + f + 3 && x < dst + n :: out[x] == data[x];
      f := f + MINOFFSET + 1;
      if f >= n { break; }
    }
  }

  const BITLUT: seq<nat> := [4, 0, 1, 0, 2, 0, 1, 0, 3, 0, 1, 0, 2, 0, 1, 0]

  function ShiftRight(w: nat, n: nat): nat {
    if n == 0 then w else ShiftRight(w / 2, n - 1)
  }

  /** The low `n` bits are zero. */
  predicate LowZeros(w: nat, n: nat) {
    n == 0 || (w % 2 == 0 && LowZeros(w / 2, n - 1))
  }

  lemma FourDigits(w: nat)
    ensures w % 16 == w % 2 + 2 * (w / 2 % 2) + 4 * (w / 2 / 2 % 2) + 8 * (w / 2 / 2 / 2 % 2)
  {
    var w2, w4, w8 := w / 2, w / 2 / 2, w / 2 / 2 / 2;
    var digits := w % 2 + 2 * (w2 % 2) + 4 * (w4 % 2) + 8 * (w8 % 2);
    assert w == 16 * (w8 / 2) + digits;
    LowDigit(w8 / 2, digits);
  }

  lemma LowDigit(high: nat, low: nat)
    requires low < 16
    ensures (16 * high + low) % 16 == low
  {
  }

  lemma NoZeros(w: nat)
    ensures LowZeros(w, 0)
  {
  }

  lemma OneMoreZero(w: nat)
    requires w % 2 == 0
    ensures forall n: nat | LowZeros(w / 2, n) :: LowZeros(w, n + 1)
  {
  }

  lemma BitlutCountsZeros(w: nat)
    ensures BITLUT[w % 16] <= 4 && LowZeros(w, BITLUT[w % 16])
    ensures w % 2 == 0 ==> 1 <= BITLUT[w % 16]
  {
    hide LowZeros;
    var w2, w4, w8 := w / 2, w / 2 / 2, w / 2 / 2 / 2;
    FourDigits(w);
    var digits := w % 16;
    hide *;
    NoZeros(w);
    NoZeros(w2);
    NoZeros(w4);
    NoZeros(w8);
    NoZeros(w8 / 2);
    if w % 2 == 0 { OneMoreZero(w); }
    if w2 % 2 == 0 { OneMoreZero(w2); }
    if w4 % 2 == 0 { OneMoreZero(w4); }
    if w8 % 2 == 0 { OneMoreZero(w8); }
  }

  // ---- reading the stream ----

  /** The decoder stands before `rest`, with `left` items of the current control word to go. */
  ghost predicate Before(source: seq<byte>, src: nat, w: nat, rest: seq<Item>, left: nat) {
    AllEncodable(rest) && w == Control(rest, left) && Has(source, src, Stream(rest, left))
  }

  lemma ReadControl(source: seq<byte>, src: nat, rest: seq<Item>)
    requires rest != [] && Before(source, src, 1, rest, 0)
    ensures src + CWORD_LEN <= |source|
    ensures Before(source, src + CWORD_LEN, FromLittleEndian(source[src..src + CWORD_LEN]), rest, GROUP)
  {
    var w := Control(rest, GROUP);
    HasConcat(source, src, LittleEndian(w), Stream(rest, GROUP));
    ControlBound(rest, GROUP);
    Pow2Of31();
    LittleEndianRoundTrip(w);
  }

  /** One item further; the low bit of the control word tells which kind it is. */
  lemma ReadItem(source: seq<byte>, src: nat, w: nat, rest: seq<Item>, left: nat)
    requires rest != [] && 0 < left && Before(source, src, w, rest, left)
    ensures w % 2 == Bit(rest[0]) && Has(source, src, ItemBytes(rest[0]))
    ensures Before(source, src + |ItemBytes(rest[0])|, w / 2, rest[1..], left - 1)
  {
    HasConcat(source, src, ItemBytes(rest[0]), Stream(rest[1..], left - 1));
  }

  function Token(source: seq<byte>, src: nat): nat
    requires src + 2 <= |source|
  {
    var low, high: int := source[src], source[src + 1];
    low + 0x100 * high
  }

  /** The token of a match gives back its hash and its length. */
  lemma ReadToken(source: seq<byte>, src: nat, x: Item)
    requires x.Match? && x.Encodable() && Has(source, src, ItemBytes(x))
    ensures src + |ItemBytes(x)| <= |source| && |ItemBytes(x)| >= 2
    ensures Token(source, src) / 16 == x.hash
    ensures Token(source, src) % 16 != 0 ==> x.length == Token(source, src) % 16 + 2 && |ItemBytes(x)| == 2
    ensures Token(source, src) % 16 == 0 ==> |ItemBytes(x)| == 3 && x.length == source[src + 2]
  {
    var bytes := ItemBytes(x);
    assert source[src] == source[src..src + |bytes|][0] && source[src + 1] == source[src..src + |bytes|][1];
    if |bytes| == 3 { assert source[src + 2] == source[src..src + |bytes|][2]; }
  }

  /** The decoder stands before item `i` of the plan. */
  ghost predicate AtItem(plan: Plan, i: nat, source: seq<byte>, src: nat, w: nat, left: nat) {
    && plan.Whole() && i <= |plan.items| && Before(source, src, w, plan.items[i..], left)
    && src <= |source| && (w == 1 <==> left == 0) && left <= GROUP
  }

  lemma NextItem(plan: Plan, i: nat, source: seq<byte>, src: nat, w: nat, left: nat)
    requires AtItem(plan, i, source, src, w, left) && i < |plan.items| && 0 < left
    ensures w % 2 == Bit(plan.items[i]) && Has(source, src, ItemBytes(plan.items[i]))
    ensures AtItem(plan, i + 1, source, src + |ItemBytes(plan.items[i])|, w / 2, left - 1)
  {
    hide Stands, Stream, ItemBytes;
    Rest(plan.items, i);
    ReadItem(source, src, w, plan.items[i..], left);
  }

  lemma Rest<T>(s: seq<T>, i: nat)
    requires i < |s|
    ensures s[i..] != [] && s[i..][0] == s[i] && s[i..][1..] == s[i + 1..]
  {
  }

  /** The next `n` items are literals, and `source` holds their bytes from `src` on. */
  ghost predicate Literals(plan: Plan, i: nat, source: seq<byte>, src: nat, n: nat) {
    && plan.Whole() && i + n <= |plan.items| && src + n <= |source| && plan.ps[i + n] == plan.ps[i] + n <= |plan.data|
    && forall x | plan.ps[i] <= x < plan.ps[i] + n ::
      plan.data[x] == source[x - plan.ps[i] + src] && (x in plan.hashed <==> x + 3 < |plan.data|)
  }

  /** A run of zero bits is a run of literals, as long as data remains. */
  lemma {:induction false} LiteralRun(plan: Plan, i: nat, source: seq<byte>, src: nat, w: nat, left: nat, n: nat)
    requires AtItem(plan, i, source, src, w, left) && LowZeros(w, n) && plan.ps[i] + n <= |plan.data|
    ensures n <= left && Literals(plan, i, source, src, n)
    ensures AtItem(plan, i + n, source, src + n, ShiftRight(w, n), left - n)
    decreases n
  {
    hide AtItem, Literals;
    if n == 0 {
      NoLiterals(plan, i, source, src, w, left);
    } else {
      FirstLiteral(plan, i, source, src, w, left);
      LiteralRun(plan, i + 1, source, src + 1, w / 2, left - 1, n - 1);
      MoreLiterals(plan, i, source, src, n);
    }
  }

  lemma NoLiterals(plan: Plan, i: nat, source: seq<byte>, src: nat, w: nat, left: nat)
    requires AtItem(plan, i, source, src, w, left) && plan.ps[i] <= |plan.data|
    ensures Literals(plan, i, source, src, 0)
  {
    hide Before, Latest;
  }

  lemma MoreLiterals(plan: Plan, i: nat, source: seq<byte>, src: nat, n: nat)
    requires n > 0 && src < |source| && i < |plan.items| && plan.Whole() && Literals(plan, i + 1, source, src + 1, n - 1)
    requires plan.ps[i + 1] == plan.ps[i] + 1 && plan.ps[i] < |plan.data| && plan.data[plan.ps[i]] == source[src]
    requires plan.ps[i] in plan.hashed <==> plan.ps[i] + 3 < |plan.data|
    ensures Literals(plan, i, source, src, n)
  {
  }

  lemma FirstLiteral(plan: Plan, i: nat, source: seq<byte>, src: nat, w: nat, left: nat)
    requires AtItem(plan, i, source, src, w, left) && w % 2 == 0 && plan.ps[i] < |plan.data|
    ensures 0 < left && plan.Whole() && i < |plan.items| && src < |source| && plan.ps[i + 1] == plan.ps[i] + 1
    ensures plan.data[plan.ps[i]] == source[src] && (plan.ps[i] in plan.hashed <==> plan.ps[i] + 3 < |plan.data|)
    ensures AtItem(plan, i + 1, source, src + 1, w / 2, left - 1)
  {
    hide Before, Latest;
    NextItem(plan, i, source, src, w, left);
    assert plan.items[i].Literal? && plan.ps[i + 1] == plan.ps[i] + 1;
    assert source[src] == source[src..src + 1][0];
  }

  /** The last four bytes are literals, so at least four bytes of input remain as long as
    * four bytes of output do. */
  lemma {:induction false} FourBytesRemain(plan: Plan, i: nat, left: nat)
    requires plan.Whole() && i <= |plan.items|
    ensures |Stream(plan.items[i..], left)| >= Min(|plan.data| - plan.ps[i], UNCOMPRESSED_END)
    decreases |plan.items| - i, left == 0
  {
    if i < |plan.items| {
      NextOfStream(plan, i, left);
      hide *;
      if left == 0 {
        FourBytesRemain(plan, i, GROUP);
      } else {
        FourBytesRemain(plan, i + 1, left - 1);
      }
    }
  }

  lemma NextOfStream(plan: Plan, i: nat, left: nat)
    requires plan.Whole() && i < |plan.items|
    ensures left == 0 ==> |Stream(plan.items[i..], left)| >= |Stream(plan.items[i..], GROUP)|
    ensures left > 0 ==> |Stream(plan.items[i..], left)| >= |Stream(plan.items[i + 1..], left - 1)| + 1
  {
  }

  lemma InputRemains(plan: Plan, i: nat, source: seq<byte>, src: nat, w: nat, left: nat)
    requires AtItem(plan, i, source, src, w, left)
    ensures src + Min(|plan.data| - plan.ps[i], UNCOMPRESSED_END) <= |source|
  {
    FourBytesRemain(plan, i, left);
  }

  // ---- the tail: literals only ----

  lemma {:induction false} LiteralControl(rest: seq<Item>, n: nat)
    requires forall j | 0 <= j < |rest| :: rest[j].Literal?
    ensures Control(rest, n) == Pow2(n)
  {
    if n > 0 { LiteralControl(if rest == [] then [] else rest[1..], n - 1); }
  }

  /** Close to the end of a packet a literal is followed by literals only. */
  lemma {:induction false} OnlyLiterals(plan: Plan, i: nat)
    requires plan.Whole() && i <= |plan.items|
    requires |plan.data| <= plan.ps[i] + UNCONDITIONAL_MATCHLEN + UNCOMPRESSED_END
    ensures forall j | i <= j < |plan.items| :: plan.items[j].Literal?
    decreases |plan.items| - i
  {
    if i < |plan.items| {
      assert Stands(plan.items[i], plan.data, plan.ps[i], plan.hashed);
      OnlyLiterals(plan, i + 1);
    }
  }

  lemma TailLiteral(plan: Plan, i: nat, source: seq<byte>, src: nat, w: nat, left: nat)
    requires AtItem(plan, i, source, src, w, left) && 0 < left && plan.ps[i] < |plan.data|
    requires forall j | i <= j < |plan.items| :: plan.items[j].Literal?
    ensures plan.Whole() && i < |plan.items| && src < |source| && plan.ps[i + 1] == plan.ps[i] + 1
    ensures plan.data[plan.ps[i]] == source[src] && (plan.ps[i] in plan.hashed <==> plan.ps[i] + 3 < |plan.data|)
    ensures AtItem(plan, i + 1, source, src + 1, w / 2, left - 1)
  {
    hide Before, Latest;
    NextItem(plan, i, source, src, w, left);
    assert source[src] == source[src..src + 1][0];
  }

  /** Copies what remains, skipping control words without reading them. */
  method CopyTail(source: seq<byte>, src0: nat, w0: nat, out: array<byte>, dst0: nat, end: nat,
      ghost plan: Plan, ghost i0: nat, ghost left0: nat)
    requires AtItem(plan, i0, source, src0, w0, left0) && plan.ps[i0] == dst0 <= end == |plan.data| <= out.Length
    requires forall j | i0 <= j < |plan.items| :: plan.items[j].Literal?
    requires Holds(out, plan.data, dst0)
    modifies out
    ensures Holds(out, plan.data, end)
    ensures forall q: nat | dst0 <= q < end :: q in plan.hashed <==> q + 3 < end
  {
    hide Before, Latest, Control, Stream, Stands, SameBytes, HashAt;
    var src: nat, w: nat, dst: nat := src0, w0, dst0;
    ghost var i: nat, left: nat := i0, left0;
    while dst < end
      invariant i0 <= i && AtItem(plan, i, source, src, w, left) && plan.ps[i] == dst
      invariant Holds(out, plan.data, dst)
      invariant forall q: nat | dst0 <= q < dst :: q in plan.hashed <==> q + 3 < end
      decreases end - dst
    {
      if w == 1 {
        SkipControl(plan, i, source, src);
        src, w, left := src + CWORD_LEN, TOP_BIT, GROUP;
      }
      TailLiteral(plan, i, source, src, w, left);
      hide AtItem;
      out[dst] := source[src];
      dst, src, w := dst + 1, src + 1, w / 2;
      i, left := i + 1, left - 1;
    }
  }

  lemma SkipControl(plan: Plan, i: nat, source: seq<byte>, src: nat)
    requires AtItem(plan, i, source, src, 1, 0) && i < |plan.items|
    requires forall j | i <= j < |plan.items| :: plan.items[j].Literal?
    ensures AtItem(plan, i, source, src + CWORD_LEN, TOP_BIT, GROUP)
  {
    ReadControl(source, src, plan.items[i..]);
    LiteralControl(plan.items[i..], GROUP);
    Pow2Of31();
  }

  // ---- one step of the main loop ----

  /** Everything the main loop keeps. */
  ghost predicate Running(plan: Plan, i: nat, source: seq<byte>, src: nat, w: nat, left: nat,
      out: array<byte>, dst: nat, table: array<int>, lastHashed: int)
    reads out, table
  {
    && AtItem(plan, i, source, src, w, left) && plan.ps[i] == dst
    && Holds(out, plan.data, dst)
    && Lags(plan.hashed, lastHashed, dst) && Knows(table, plan.data, plan.hashed, lastHashed)
  }

  /** The entry the decoder looks up is the position the encoder meant. */
  lemma LookupFindsSource(plan: Plan, dst: nat, table: array<int>, lastHashed: int, h: nat)
    requires h < HASH_VALUES && Latest(plan.hashed, plan.data, h, dst - 3) != NONE
    requires Lags(plan.hashed, lastHashed, dst) && Knows(table, plan.data, plan.hashed, lastHashed)
    ensures table[h] == Latest(plan.hashed, plan.data, h, dst - 3)
  {
    LatestSkips(plan.hashed, plan.data, h, dst - 3, lastHashed);
  }

  lemma KnowsSkips(table: array<int>, data: seq<byte>, hashed: set<nat>, low: int, high: int)
    requires Knows(table, data, hashed, low) && low <= high && forall q: nat | low < q <= high :: q !in hashed
    ensures Knows(table, data, hashed, high)
  {
    forall h | 0 <= h < HASH_VALUES
      ensures Latest(hashed, data, h, high) == Latest(hashed, data, h, low)
    {
      LatestSkips(hashed, data, h, low, high);
    }
  }

  /** Copies a match and hashes everything up to its start. */
  method CopyMatch(out: array<byte>, dst0: nat, table: array<int>, lastHashed0: int, hash: nat, length: nat,
      ghost plan: Plan, ghost x: Item)
    returns (dst: nat, lastHashed: int)
    requires plan.Describes() && x == Match(hash, length) && Stands(x, plan.data, dst0, plan.hashed)
    requires Holds(out, plan.data, dst0) && |plan.data| <= out.Length
    requires Lags(plan.hashed, lastHashed0, dst0) && Knows(table, plan.data, plan.hashed, lastHashed0)
    modifies out, table
    ensures dst == dst0 + length && Holds(out, plan.data, dst)
    ensures Lags(plan.hashed, lastHashed, dst) && Knows(table, plan.data, plan.hashed, lastHashed)
  {
    hide Latest, HashAt, SameBytes;
    LookupFindsSource(plan, dst0, table, lastHashed0, hash);
    var offset2 := table[hash];
    MemcpyUp(out, dst0, offset2, length, plan.data);
    dst := dst0 + length;
    lastHashed := UpdateHashUpto(table, out, lastHashed0, dst - length, plan.data, plan.hashed);
    KnowsSkips(table, plan.data, plan.hashed, lastHashed, dst - 1);
    lastHashed := dst - 1;
  }

  /** Takes a match token apart. */
  method ReadMatch(source: seq<byte>, src0: nat, ghost x: Item) returns (hash: nat, length: nat, src: nat)
    requires x.Match? && x.Encodable() && Has(source, src0, ItemBytes(x))
    ensures x == Match(hash, length) && src == src0 + |ItemBytes(x)|
  {
    hide ItemBytes;
    ReadToken(source, src0, x);
    var fetch := Token(source, src0);
    hash := fetch / 16 % HASH_VALUES;
    if fetch % 16 != 0 {
      length, src := fetch % 16 + 2, src0 + 2;
    } else {
      length, src := source[src0 + 2], src0 + 3;
    }
  }

  method MatchStep(source: seq<byte>, src0: nat, w0: nat, out: array<byte>, dst0: nat, table: array<int>, lastHashed0: int,
      ghost plan: Plan, ghost i: nat, ghost left: nat)
    returns (src: nat, w: nat, dst: nat, lastHashed: int)
    requires i < |plan.items| && 0 < left && Running(plan, i, source, src0, w0, left, out, dst0, table, lastHashed0)
    requires w0 % 2 == 1 && |plan.data| <= out.Length
    modifies out, table
    ensures i + 1 < |plan.items| && dst0 < dst < |plan.data|
    ensures Running(plan, i + 1, source, src, w, left - 1, out, dst, table, lastHashed)
  {
    hide Before, ItemBytes, Lags, Knows, Holds;
    NextItem(plan, i, source, src0, w0, left);
    ghost var x := plan.items[i];
    assert x.Match? && x.Encodable() && Stands(x, plan.data, dst0, plan.hashed);
    var hash, length;
    hash, length, src := ReadMatch(source, src0, x);
    w := w0 / 2;
    dst, lastHashed := CopyMatch(out, dst0, table, lastHashed0, hash, length, plan, x);
  }

  /** Copies four bytes, of which `n` count, and hashes what now has three bytes behind it. */
  method CopyLiterals(source: seq<byte>, src: nat, out: array<byte>, dst0: nat, table: array<int>, lastHashed0: int, n: nat,
      ghost plan: Plan, ghost i: nat)
    returns (dst: nat, lastHashed: int)
    requires Literals(plan, i, source, src, n) && plan.ps[i] == dst0 && src + 4 <= |source| && 1 <= n <= 4
    requires Holds(out, plan.data, dst0) && dst0 + 4 <= |plan.data| - 3 && |plan.data| <= out.Length
    requires Lags(plan.hashed, lastHashed0, dst0) && Knows(table, plan.data, plan.hashed, lastHashed0)
    modifies out, table
    ensures dst == dst0 + n && Holds(out, plan.data, dst)
    ensures Lags(plan.hashed, lastHashed, dst) && Knows(table, plan.data, plan.hashed, lastHashed)
  {
    hide Latest;
    forall k | 0 <= k < 4 {
      out[dst0 + k] := source[src + k];
    }
    dst := dst0 + n;
    lastHashed := UpdateHashUpto(table, out, lastHashed0, dst - 3, plan.data, plan.hashed);
  }

  method LiteralStep(source: seq<byte>, src0: nat, w0: nat, out: array<byte>, dst0: nat, table: array<int>, lastHashed0: int,
      ghost plan: Plan, ghost i: nat, ghost left: nat)
    returns (src: nat, w: nat, dst: nat, lastHashed: int, ghost n: nat)
    requires i < |plan.items| && Running(plan, i, source, src0, w0, left, out, dst0, table, lastHashed0)
    requires w0 % 2 == 0 && |plan.data| <= out.Length
    requires dst0 + UNCONDITIONAL_MATCHLEN + UNCOMPRESSED_END + 1 < |plan.data|
    modifies out, table
    ensures 1 <= n <= left && i + n < |plan.items| && dst0 < dst < |plan.data|
    ensures Running(plan, i + n, source, src, w, left - n, out, dst, table, lastHashed)
  {
    hide Before, Lags, Knows, Holds;
    n := BITLUT[w0 % 16];
    BitlutCountsZeros(w0);
    LiteralRun(plan, i, source, src0, w0, left, n);
    InputRemains(plan, i, source, src0, w0, left);
    var count := BITLUT[w0 % 16];
    dst, lastHashed := CopyLiterals(source, src0, out, dst0, table, lastHashed0, count, plan, i);
    w, src := ShiftRight(w0, count), src0 + count;
  }

  lemma KnowsMore(table: array<int>, before: Context, plan: Plan)
    requires before.Valid() && before.data <= plan.data
    requires forall q: nat | q < |before.data| :: q in before.hashed <==> q in plan.hashed
    requires Knows(table, before.data, before.hashed, |before.data| - 1)
    ensures Knows(table, plan.data, plan.hashed, |before.data| - 1)
  {
    var bound := |before.data| - 1;
    forall h | 0 <= h < HASH_VALUES
      ensures Latest(plan.hashed, plan.data, h, bound) != NONE ==> table[h] == Latest(plan.hashed, plan.data, h, bound)
    {
      LatestAgrees(before.hashed, plan.hashed, before.data, plan.data, h, bound);
    }
  }

  /** At the start of a packet the table still knows what it knew, and nothing lags. */
  lemma StartPacket(source: seq<byte>, header: nat, out: array<byte>, table: array<int>, before: Context, plan: Plan)
    requires header <= |source| && Encodes(source[header..], before, plan)
    requires Holds(out, before.data, |before.data|)
    requires Knows(table, before.data, before.hashed, |before.data| - 1)
    ensures plan.items != [] && |before.data| < |plan.data|
    ensures Running(plan, 0, source, header, 1, 0, out, |before.data|, table, |before.data| - 1)
  {
    KnowsMore(table, before, plan);
    var stream := Stream(plan.items, 0);
    assert source[header..header + |stream|] == source[header..][..|stream|] == stream;
    assert plan.items[0..] == plan.items;
  }

  /** Reads the next control word when the current one is used up. */
  method NextControl(source: seq<byte>, src0: nat, w0: nat, out: array<byte>, dst: nat, table: array<int>, lastHashed: int,
      ghost plan: Plan, ghost i: nat, ghost left0: nat)
    returns (src: nat, w: nat, ghost left: nat)
    requires i < |plan.items| && Running(plan, i, source, src0, w0, left0, out, dst, table, lastHashed)
    ensures 0 < left && Running(plan, i, source, src, w, left, out, dst, table, lastHashed)
  {
    src, w, left := src0, w0, left0;
    if w == 1 {
      ReadControl(source, src, plan.items[i..]);
      w := FromLittleEndian(source[src..src + CWORD_LEN]);
      src, left := src + CWORD_LEN, GROUP;
    }
  }

  lemma LastLiterals(plan: Plan, i: nat)
    requires plan.Whole() && i < |plan.items| && plan.items[i].Literal?
    requires |plan.data| <= plan.ps[i] + UNCONDITIONAL_MATCHLEN + UNCOMPRESSED_END + 1
    ensures forall j | i <= j < |plan.items| :: plan.items[j].Literal?
  {
    OnlyLiterals(plan, i + 1);
  }

  method FinishHashing(table: array<int>, out: array<byte>, lastHashed: int, dst: nat, end: nat, ghost plan: Plan)
    requires plan.Describes() && dst < end == |plan.data| && Holds(out, plan.data, end)
    requires Lags(plan.hashed, lastHashed, dst) && Knows(table, plan.data, plan.hashed, lastHashed)
    requires forall q: nat | dst <= q < end :: q in plan.hashed <==> q + 3 < end
    modifies table
    ensures Knows(table, plan.data, plan.hashed, end - 1)
  {
    var last := UpdateHashUpto(table, out, lastHashed, end - 1 - 3, plan.data, plan.hashed);
    KnowsSkips(table, plan.data, plan.hashed, last, end - 1);
  }

  /** The last part of a packet. */
  method FinishPacket(source: seq<byte>, src: nat, w: nat, out: array<byte>, dst: nat, end: nat, table: array<int>, lastHashed: int,
      ghost plan: Plan, ghost i: nat, ghost left: nat)
    requires i < |plan.items| && Running(plan, i, source, src, w, left, out, dst, table, lastHashed)
    requires w % 2 == 0 && 0 < left && dst < end == |plan.data| <= out.Length
    requires end <= dst + UNCONDITIONAL_MATCHLEN + UNCOMPRESSED_END + 1
    modifies out, table
    ensures Holds(out, plan.data, end) && Knows(table, plan.data, plan.hashed, end - 1)
  {
    hide Before, Latest, Control, Stream, Holds, Lags, Knows;
    NextItem(plan, i, source, src, w, left);
    LastLiterals(plan, i);
    CopyTail(source, src, w, out, dst, end, plan, i, left);
    FinishHashing(table, out, lastHashed, dst, end, plan);
  }

  /** One round of the main loop; `finished` when it was the last. */
  method Step(source: seq<byte>, src0: nat, w0: nat, out: array<byte>, dst0: nat, end: nat, table: array<int>, lastHashed0: int,
      ghost plan: Plan, ghost i0: nat, ghost left0: nat)
    returns (finished: bool, src: nat, w: nat, dst: nat, lastHashed: int, ghost i: nat, ghost left: nat)
    requires i0 < |plan.items| && Running(plan, i0, source, src0, w0, left0, out, dst0, table, lastHashed0)
    requires dst0 < end == |plan.data| <= out.Length
    modifies out, table
    ensures finished ==> Holds(out, plan.data, end) && Knows(table, plan.data, plan.hashed, end - 1)
    ensures !finished ==> i < |plan.items| && dst0 < dst < end
    ensures !finished ==> Running(plan, i, source, src, w, left, out, dst, table, lastHashed)
  {
    hide Running, Holds, Knows;
    src, w, left := NextControl(source, src0, w0, out, dst0, table, lastHashed0, plan, i0, left0);
    i, dst, lastHashed, finished := i0, dst0, lastHashed0, false;
    if w % 2 == 1 {
      src, w, dst, lastHashed := MatchStep(source, src, w, out, dst, table, lastHashed, plan, i, left);
      i, left := i + 1, left - 1;
    } else if dst < end - 1 - UNCONDITIONAL_MATCHLEN - UNCOMPRESSED_END {
      ghost var n;
      src, w, dst, lastHashed, n := LiteralStep(source, src, w, out, dst, table, lastHashed, plan, i, left);
      i, left := i + n, left - n;
    } else {
      FinishPacket(source, src, w, out, dst, end, table, lastHashed, plan, i, left);
      finished := true;
    }
  }

  /** qlz_decompress_core: given a body that encodes the plan, writes the plan's data behind
    * what the context already holds. */
  method DecompressCore(source: seq<byte>, header: nat, out: array<byte>, start: nat, size: nat, table: array<int>,
      ghost before: Context, ghost plan: Plan)
    requires header <= |source| && Encodes(source[header..], before, plan)
    requires start == |before.data| && start + size == |plan.data| <= out.Length
    requires Holds(out, before.data, start) && Knows(table, before.data, before.hashed, start - 1)
    modifies out, table
    ensures Holds(out, plan.data, start + size)
    ensures Knows(table, plan.data, plan.hashed, start + size - 1)
  {
    hide Running, Encodes, Holds, Knows;
    var src: nat, w: nat, dst: nat, lastHashed: int := header, 1, start, start - 1;
    var end := start + size;
    ghost var i: nat, left: nat := 0, 0;
    StartPacket(source, header, out, table, before, plan);
    while true
      invariant i < |plan.items| && dst < end
      invariant Running(plan, i, source, src, w, left, out, dst, table, lastHashed)
      decreases end - dst
    {
      var finished;
      finished, src, w, dst, lastHashed, i, left := Step(source, src, w, out, dst, end, table, lastHashed, plan, i, left);
      if finished { return; }
    }
  }
}
