/** Bytes, as the values 0 to 255 that every codec and parser here works on. */
module Bytes {
  type byte = b: int | 0 <= b < 256

  /** One more than the largest value of an integer type of so many bits. */
  const UINT16 := 0x1_0000
  const UINT31 := 0x8000_0000
  const UINT32 := 0x1_0000_0000
  const UINT64 := 0x1_0000_0000_0000_0000

  datatype Option<T> = None | Some(value: T)

  function Min(a: int, b: int): int { if a < b then a else b }

  function Max(a: int, b: int): int { if a < b then b else a }

  /** The bytes of `part` stand at position `at` of `source`. */
  ghost predicate Has(source: seq<byte>, at: nat, part: seq<byte>) {
    at + |part| <= |source| && source[at..at + |part|] == part
  }

  lemma HasConcat(source: seq<byte>, at: nat, a: seq<byte>, b: seq<byte>)
    requires Has(source, at, a + b)
    ensures Has(source, at, a) && Has(source, at + |a|, b)
  {
    assert source[at..at + |a|] == source[at..at + |a + b|][..|a|];
    assert source[at + |a|..at + |a| + |b|] == source[at..at + |a + b|][|a|..];
  }

  /** Chunks of data, one behind the other. */
  function Join(chunks: seq<seq<byte>>): seq<byte> {
    if chunks == [] then [] else Join(chunks[..|chunks| - 1]) + chunks[|chunks| - 1]
  }

  lemma {:induction false} JoinBounded(chunks: seq<seq<byte>>, i: nat)
    requires i < |chunks|
    ensures Join(chunks[..i + 1]) == Join(chunks[..i]) + chunks[i]
    ensures |Join(chunks[..i])| + |chunks[i]| <= |Join(chunks)|
  {
    assert chunks[..i + 1][..i] == chunks[..i];
    var init := chunks[..|chunks| - 1];
    if i < |init| {
      assert init[..i] == chunks[..i] && init[..i + 1] == chunks[..i + 1];
      JoinBounded(init, i);
    }
  }

  function Pow2(n: nat): (r: nat)
    ensures r >= 1
  {
    if n == 0 then 1 else 2 * Pow2(n - 1)
  }

  /** Adding to a number of 32 bits. */
  lemma AddModulo(a: nat, b: nat)
    ensures (a % UINT32 + b) % UINT32 == (a + b) % UINT32
  {
    var q, low := a / UINT32, a % UINT32;
    assert a == q * UINT32 + low;
    MultipleAdded(q, low + b);
  }

  lemma {:induction false} MultipleAdded(q: nat, n: nat)
    ensures (q * UINT32 + n) % UINT32 == n % UINT32
  {
    if q > 0 {
      MultipleAdded(q - 1, n);
      assert (q - 1) * UINT32 + n + UINT32 == q * UINT32 + n;
    }
  }

  ghost predicate AllEqual(data: seq<byte>) {
    forall i, j | 0 <= i < |data| && 0 <= j < |data| :: data[i] == data[j]
  }
}
