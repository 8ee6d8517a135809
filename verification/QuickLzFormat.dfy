/** The QuickLZ level 1 format: literals and matches grouped by 31 behind control words.
  * A match names a hash value; which earlier position that means is agreed on by both
  * sides, from the positions they have hashed so far. */
module QuickLzFormat {
  import opened Bytes

  const HASH_VALUES := 4096
  const MINOFFSET := 2
  const UNCONDITIONAL_MATCHLEN := 6
  const UNCOMPRESSED_END := 4
  const CWORD_LEN := 4
  const TOP_BIT := 0x8000_0000
  const GROUP := 31    // items per control word

  // ---- hashing ----

  /** `((i >> 12) ^ i) & 4095` of a word whose three low bytes are given. */
  function HashBytes(b0: byte, b1: byte, b2: byte): (h: nat)
    ensures h < HASH_VALUES
  {
    var low: int := b0 + 0x100 * (b1 % 16);
    var high: int := b1 / 16 + 16 * b2;
    ((low as bv12) ^ (high as bv12)) as nat
  }

  function HashAt(data: seq<byte>, p: nat): (h: nat)
    ensures h < HASH_VALUES
  {
    if p + 3 <= |data| then HashBytes(data[p], data[p + 1], data[p + 2]) else 0
  }

  const NONE := -1

  /** The last hashed position up to `bound` that has hash `h`, if any. */
  function Latest(hashed: set<nat>, data: seq<byte>, h: nat, bound: int): (o: int)
    ensures o == NONE || (0 <= o <= bound && o in hashed && HashAt(data, o) == h)
    decreases bound + 1
  {
    if bound < 0 then NONE
    else if bound in hashed && HashAt(data, bound) == h then bound
    else Latest(hashed, data, h, bound - 1)
  }

  /** Only what is hashed up to the bound matters, and only the data it covers. */
  lemma {:induction false} LatestAgrees(s: set<nat>, t: set<nat>, data: seq<byte>, more: seq<byte>, h: nat, bound: int)
    requires forall q: nat | q <= bound :: q in s <==> q in t
    requires data <= more && forall q | q in s :: q + 3 <= |data|
    ensures Latest(s, data, h, bound) == Latest(t, more, h, bound)
    decreases bound + 1
  {
    if bound >= 0 {
      LatestAgrees(s, t, data, more, h, bound - 1);
    }
  }

  lemma {:induction false} LatestSkips(s: set<nat>, data: seq<byte>, h: nat, low: int, high: int)
    requires low <= high && forall q: nat | low < q <= high :: q !in s
    ensures Latest(s, data, h, low) == Latest(s, data, h, high)
    decreases high - low
  {
    if low < high {
      LatestSkips(s, data, h, low, high - 1);
    }
  }

  // ---- control words ----

  lemma Pow2Of31()
    ensures Pow2(31) == TOP_BIT
  {
    assert Pow2(8) == 0x100;
    assert Pow2(16) == 0x1_0000;
    assert Pow2(24) == 0x100_0000;
  }

  // ---- items ----

  datatype Item = Literal(b: byte) | Match(hash: nat, length: nat) {
    function Size(): nat { if Literal? then 1 else length }
    predicate Encodable() { Match? ==> hash < HASH_VALUES && 3 <= length <= 255 }
  }

  function Bit(x: Item): nat { if x.Literal? then 0 else 1 }

  /** A literal byte, or a 16-bit token with an optional length byte. */
  function ItemBytes(x: Item): (r: seq<byte>)
    requires x.Encodable()
    ensures 1 <= |r| <= 3 && |r| <= x.Size()
  {
    match x
    case Literal(b) => [b]
    case Match(hash, length) =>
      if length < 18 then [(length - 2 + 16 * hash) % 256, (length - 2 + 16 * hash) / 256]
      else [16 * hash % 256, 16 * hash / 256, length]
  }

  predicate AllEncodable(items: seq<Item>) {
    forall i | 0 <= i < |items| :: items[i].Encodable()
  }

  /** A control word: the low `n` bits tell the matches among the next items, from the
    * lowest bit on, and a 1 above them marks the end. */
  function Control(items: seq<Item>, n: nat): (r: nat)
    ensures n == 0 <==> r == 1
    ensures n > 0 ==> r >= 2
  {
    if n == 0 then 1
    else if items == [] then 2 * Control([], n - 1)
    else Bit(items[0]) + 2 * Control(items[1..], n - 1)
  }

  lemma {:induction false} ControlBound(items: seq<Item>, n: nat)
    ensures Control(items, n) < 2 * Pow2(n)
  {
    if n > 0 { ControlBound(if items == [] then [] else items[1..], n - 1); }
  }

  function LittleEndian(v: nat): (r: seq<byte>)
    ensures |r| == 4
  {
    [v % 0x100, v / 0x100 % 0x100, v / 0x1_0000 % 0x100, v / 0x100_0000 % 0x100]
  }

  function FromLittleEndian(s: seq<byte>): (v: nat)
    requires |s| == 4
  {
    var b0, b1, b2, b3: int := s[0], s[1], s[2], s[3];
    b0 + 0x100 * b1 + 0x1_0000 * b2 + 0x100_0000 * b3
  }

  lemma LittleEndianRoundTrip(v: nat)
    requires v < 0x1_0000_0000
    ensures FromLittleEndian(LittleEndian(v)) == v
  {
    var v1, v2, v3 := v / 0x100, v / 0x1_0000, v / 0x100_0000;
    NextDigit(v, 1);
    NextDigit(v, 0x100);
    NextDigit(v, 0x1_0000);
    assert v3 < 0x100;
  }

  lemma NextDigit(v: nat, k: nat)
    requires k == 1 || k == 0x100 || k == 0x1_0000
    ensures v / k == 0x100 * (v / (0x100 * k)) + v / k % 0x100
  {
  }

  function Payload(items: seq<Item>): seq<byte>
    requires AllEncodable(items)
  {
    if items == [] then [] else ItemBytes(items[0]) + Payload(items[1..])
  }

  /** The bytes of the items, with a control word before every 31 of them; `left` items
    * are still covered by the control word already written. */
  function Stream(items: seq<Item>, left: nat): seq<byte>
    requires AllEncodable(items)
    decreases |items|, left == 0
  {
    if items == [] then []
    else if left == 0 then LittleEndian(Control(items, GROUP)) + Stream(items, GROUP)
    else ItemBytes(items[0]) + Stream(items[1..], left - 1)
  }

  // ---- what items mean ----

  /** The bytes at `p` repeat those at `o` for `length` bytes. */
  ghost predicate SameBytes(data: seq<byte>, o: nat, p: nat, length: nat) {
    o < p && p + length <= |data| && forall x | p <= x < p + length :: data[x] == data[x - (p - o)]
  }

  /** Item `x` stands for the data from `p` on. Matches are only hashed at their start, and
    * the position their hash means lies at least three bytes back. */
  ghost predicate Stands(x: Item, data: seq<byte>, p: nat, hashed: set<nat>) {
    match x
    case Literal(b) =>
      p < |data| && data[p] == b && (p in hashed <==> p + 3 < |data|)
    case Match(hash, length) =>
      && x.Encodable() && p + UNCONDITIONAL_MATCHLEN + UNCOMPRESSED_END < |data|
      && p + length + UNCOMPRESSED_END <= |data|
      && p in hashed && (forall q | p < q < p + length :: q !in hashed)
      && var o := Latest(hashed, data, hash, p - 3);
         o != NONE && SameBytes(data, o, p, length)
  }

  /** A packet seen from both sides: items, the position where each starts (and where the
    * last one ends), the data they stand in, and which positions of it are hashed. */
  datatype Plan = Plan(items: seq<Item>, ps: seq<nat>, data: seq<byte>, hashed: set<nat>) {
    ghost predicate Describes() {
      && |ps| == |items| + 1 && AllEncodable(items)
      && (forall q | q in hashed :: q + 4 <= |data|)
      && forall i | 0 <= i < |items| :: ps[i + 1] == ps[i] + items[i].Size() && Stands(items[i], data, ps[i], hashed)
    }

    ghost predicate Whole() {
      Describes() && ps[|items|] == |data|
    }
  }

  /** Hashing a position behind an item does not change what the item stands for. */
  lemma StandsStable(x: Item, data: seq<byte>, p: nat, hashed: set<nat>, src: nat)
    requires Stands(x, data, p, hashed) && p + x.Size() <= src
    requires forall q | q in hashed :: q + 3 <= |data|
    ensures Stands(x, data, p, hashed + {src})
  {
    if x.Match? {
      LatestAgrees(hashed, hashed + {src}, data, data, x.hash, p - 3);
    }
  }

  /** What both sides know between packets: the data in the stream buffer and which of its
    * positions have been hashed. */
  datatype Context = Context(data: seq<byte>, hashed: set<nat>) {
    ghost predicate Valid() {
      forall q | q in hashed :: q + 4 <= |data|
    }
  }

  /** `body` encodes what the plan adds to the context. */
  ghost predicate Encodes(body: seq<byte>, before: Context, plan: Plan) {
    && before.Valid() && plan.Whole() && before.data < plan.data && plan.ps[0] == |before.data|
    && (forall q: nat | q < |before.data| :: q in before.hashed <==> q in plan.hashed)
    && Stream(plan.items, 0) <= body && 9 <= |body|
  }
}
