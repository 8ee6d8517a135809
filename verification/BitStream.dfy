/** Bit streams. Machine words are sequences of bits, most significant first, so that shifts
  * drop bits at one end and fill zeros at the other, exactly as in hardware. What was appended is a
  * sequence of bits too. */
module BitStream {
  import opened Bytes

  function Zeros(n: nat): (w: seq<bool>)
    ensures |w| == n && forall k | 0 <= k < n :: !w[k]
  {
    seq(n, _ => false)
  }

  type Word32 = w: seq<bool> | |w| == 32 witness Zeros(32)
  type Word64 = w: seq<bool> | |w| == 64 witness Zeros(64)

  function ShiftLeft(w: seq<bool>, n: nat): (r: seq<bool>)
    requires n <= |w|
    ensures |r| == |w|
  {
    w[n..] + Zeros(n)
  }

  function ShiftRight(w: seq<bool>, n: nat): (r: seq<bool>)
    requires n <= |w|
    ensures |r| == |w|
  {
    Zeros(n) + w[..|w| - n]
  }

  function Or(a: seq<bool>, b: seq<bool>): (r: seq<bool>)
    requires |a| == |b|
    ensures |r| == |a| && forall k | 0 <= k < |a| :: r[k] == (a[k] || b[k])
  {
    seq(|a|, k requires 0 <= k < |a| => a[k] || b[k])
  }

  /** A 32-bit value in a 64-bit word. */
  function Widen(w: Word32): Word64 { Zeros(32) + w }

  function Low(w: seq<bool>, n: nat): seq<bool>
    requires n <= |w|
  {
    w[|w| - n..]
  }

  /** The value needs at most `n` bits. */
  predicate Fits(w: seq<bool>, n: nat) {
    n <= |w| && forall k | 0 <= k < |w| - n :: !w[k]
  }

  // ---- bytes ----

  function Value(bits: seq<bool>): (v: nat)
    ensures v < Pow2(|bits|)
  {
    if bits == [] then 0
    else 2 * Value(bits[..|bits| - 1]) + if bits[|bits| - 1] then 1 else 0
  }

  function Digits(v: nat, n: nat): (bits: seq<bool>)
    ensures |bits| == n
  {
    if n == 0 then [] else Digits(v / 2, n - 1) + [v % 2 == 1]
  }

  lemma {:induction false} DigitsOfValue(bits: seq<bool>)
    ensures Digits(Value(bits), |bits|) == bits
  {
    if bits != [] { DigitsOfValue(bits[..|bits| - 1]); }
  }

  function ByteOf(bits: seq<bool>): byte
    requires |bits| == 8
  {
    assert Pow2(8) == 256;
    Value(bits)
  }

  function BitsOf(b: byte): seq<bool> { Digits(b, 8) }

  /** The bits of some bytes, first byte first, most significant bit first. */
  function Bits(bytes: seq<byte>): (bits: seq<bool>)
    ensures |bits| == 8 * |bytes|
  {
    if bytes == [] then [] else Bits(bytes[..|bytes| - 1]) + BitsOf(bytes[|bytes| - 1])
  }

  lemma {:induction false} BitsConcat(a: seq<byte>, b: seq<byte>)
    ensures Bits(a + b) == Bits(a) + Bits(b)
  {
    hide *;
    if b == [] {
      assert a + b == a;
      BitsOfNone();
    } else {
      var init, last := b[..|b| - 1], b[|b| - 1];
      BitsConcat(a, init);
      BitsOfLast(a + init, last);
      BitsOfLast(init, last);
      assert a + b == a + init + [last] && b == init + [last];
    }
  }

  lemma BitsOfNone()
    ensures Bits([]) == []
  {
  }

  lemma BitsOfLast(a: seq<byte>, b: byte)
    ensures Bits(a + [b]) == Bits(a) + BitsOf(b)
  {
    assert (a + [b])[..|a|] == a;
  }

  /** The byte-swapped store of a word: most significant byte first. */
  function SwappedBytes(w: Word64): (bytes: seq<byte>)
    ensures |bytes| == 8
  {
    seq(8, k requires 0 <= k < 8 => ByteOf(w[8 * k..8 * k + 8]))
  }

  lemma {:induction false} BitsOfSwapped(w: Word64, k: nat)
    requires k <= 8
    ensures Bits(SwappedBytes(w)[..k]) == w[..8 * k]
  {
    hide *;
    if k == 0 {
      BitsOfNone();
      assert SwappedBytes(w)[..0] == [];
    } else {
      BitsOfSwapped(w, k - 1);
      SwappedByte(w, k - 1);
      var bytes := SwappedBytes(w);
      assert bytes[..k] == bytes[..k - 1] + [bytes[k - 1]];
      BitsOfLast(bytes[..k - 1], bytes[k - 1]);
      assert w[..8 * k] == w[..8 * (k - 1)] + w[8 * (k - 1)..8 * (k - 1) + 8];
    }
  }

  lemma SwappedByte(w: Word64, j: nat)
    requires j < 8
    ensures BitsOf(SwappedBytes(w)[j]) == w[8 * j..8 * j + 8]
  {
    DigitsOfValue(w[8 * j..8 * j + 8]);
    OneByte(w[8 * j..8 * j + 8], SwappedBytes(w)[j]);
  }

  /** The low bits of a value, taken in parts. */
  lemma LowParts(value: Word32, numBits: nat, rest: nat, n: nat)
    requires n <= rest <= numBits <= 32
    ensures Low(value, numBits)[..numBits - rest] + Low(value, rest)[..n] == Low(value, numBits)[..numBits - rest + n]
    ensures Low(value, rest)[..rest] == Low(value, rest) && Low(value, numBits)[..numBits] == Low(value, numBits)
  {
  }

  lemma LowIsAll(value: Word32, numBits: nat)
    requires numBits <= 32
    ensures |Low(value, numBits)| == numBits && Low(value, numBits)[..0] == []
  {
  }

  lemma OneByte(bits: seq<bool>, b: byte)
    requires |bits| == 8 && b == Value(bits) && Digits(Value(bits), 8) == bits
    ensures BitsOf(b) == bits
  {
  }

  // ---- writing ----

  class BitstreamOut {
    const buffer: array<byte>
    var head: nat
    var pending: Word64
    var bitPos: nat

    constructor (data: array<byte>)
      ensures buffer == data && Valid() && Written() == [] && Unwritten() == []
    {
      buffer := data;
      head, pending, bitPos := 0, Zeros(64), 0;
    }

    ghost predicate Valid()
      reads this
    {
      head <= buffer.Length && bitPos < 64
    }

    /** The bits stored since the last rewind. */
    ghost function Written(): seq<bool>
      requires Valid()
      reads this, buffer
    {
      Bits(buffer[..head])
    }

    /** The bits that still wait for a full word: the low `bitPos` bits of `pending`. The bits
      * above them are stale. */
    ghost function Unwritten(): seq<bool>
      requires Valid()
      reads this
    {
      Low(pending, bitPos)
    }

    /** Everything appended since the last rewind, and what waited then. */
    ghost function All(): seq<bool>
      requires Valid()
      reads this, buffer
    {
      Written() + Unwritten()
    }

    function Count(): nat
      requires Valid()
      reads this
    {
      8 * head + bitPos
    }

    /** The count is the number of bits. */
    lemma CountIs()
      requires Valid()
      ensures |All()| == Count()
    {
    }

    method Store(w: Word64)
      requires Valid() && head + 8 <= buffer.Length
      modifies this`head, buffer
      ensures head == old(head) + 8 && Written() == old(Written()) + w
    {
      var bytes := SwappedBytes(w);
      forall k | 0 <= k < 8 {
        buffer[head + k] := bytes[k];
      }
      assert buffer[..head + 8] == old(buffer[..head]) + bytes;
      BitsConcat(old(buffer[..head]), bytes);
      BitsOfSwapped(w, 8);
      assert bytes[..8] == bytes && w[..64] == w;
      head := head + 8;
    }

    /** Appends the lowest `numBits` bits of `value`. */
    method Append(value: Word32, numBits: nat)
      requires Valid() && numBits <= 32 && Fits(value, numBits)
      requires bitPos + numBits >= 64 ==> head + 8 <= buffer.Length
      modifies this, buffer
      ensures Valid()
      ensures All() == old(All()) + Low(value, numBits)
      ensures head == old(head) + (if old(bitPos) + numBits >= 64 then 8 else 0)
      ensures bitPos == old(bitPos) + numBits - (if old(bitPos) + numBits >= 64 then 64 else 0)
    {
      hide Bits, Low;
      var rest := numBits;
      ghost var all, room := Written() + Unwritten(), 64 - bitPos;
      LowIsAll(value, numBits);
      while true
        invariant Valid() && (rest == numBits || (rest == numBits - room && 0 <= rest && bitPos == 0))
        invariant if rest == numBits then head == old(head) && bitPos == old(bitPos) else head == old(head) + 8
        invariant Written() + Unwritten() == all + Low(value, numBits)[..numBits - rest]
        decreases rest
      {
        var writeableBits := 64 - bitPos;
        if rest >= writeableBits {
          LowParts(value, numBits, rest, writeableBits);
          FillWord(value, rest, writeableBits);
          rest := rest - writeableBits;
          assert Written() + Unwritten() == Written();
        } else {
          LowParts(value, numBits, rest, rest);
          ExtendWord(value, rest);
          return;
        }
      }
    }

    /** Puts the remaining bits into the pending word, which has room for them. */
    method ExtendWord(value: Word32, rest: nat)
      requires Valid() && rest <= 32 && rest < 64 - bitPos && (bitPos == 0 || Fits(value, rest))
      modifies this`pending, this`bitPos
      ensures Valid() && bitPos == old(bitPos) + rest
      ensures Written() + Unwritten() == old(Written() + Unwritten()) + Low(value, rest)
    {
      hide Or, ShiftLeft, Widen, Low, Bits;
      Extend(pending, value, bitPos, rest);
      ghost var before := Unwritten();
      pending := Or(ShiftLeft(pending, rest), Widen(value));
      bitPos := bitPos + rest;
      assert Written() + (before + Low(value, rest)) == (Written() + before) + Low(value, rest);
    }

    /** Fills the pending word up with the first of the remaining bits and stores it. */
    method FillWord(value: Word32, rest: nat, writeableBits: nat)
      requires Valid() && writeableBits == 64 - bitPos <= rest <= 32 && Fits(value, rest) && head + 8 <= buffer.Length
      modifies this, buffer
      ensures Valid() && bitPos == 0 && head == old(head) + 8 && Unwritten() == []
      ensures Written() == old(Written() + Unwritten()) + Low(value, rest)[..writeableBits]
    {
      hide Bits, Or, ShiftLeft, Widen, ShiftRight;
      Fill(pending, value, bitPos, rest);
      var tmp := Widen(ShiftRight(value, rest - writeableBits));
      pending := Or(ShiftLeft(pending, writeableBits), tmp);
      bitPos := 0;
      Store(pending);
    }

    /** Stores the waiting bits in a last word, filled up with zeros. With no bits waiting the
      * shift is as wide as the word, so what is stored then is arbitrary. */
    method Close() returns (ghost padding: seq<bool>)
      requires Valid() && head + 8 <= buffer.Length
      modifies this, buffer
      ensures Valid() && head == old(head) + 8 && bitPos == 0
      ensures Written() == old(All()) + padding
    {
      var w: Word64 := *;
      if bitPos != 0 {
        w := ShiftLeft(pending, 64 - bitPos);
      }
      padding := w[bitPos..];
      assert w == Unwritten() + padding;
      Store(w);
      bitPos := 0;
    }

    /** Moves the write position back; the waiting bits stay. */
    method Rewind()
      requires Valid()
      modifies this`head
      ensures Valid() && head == 0 && Written() == [] && Unwritten() == old(Unwritten())
    {
      head := 0;
    }

    method Reset()
      requires Valid()
      modifies this
      ensures Valid() && head == 0 && Written() == [] && Unwritten() == []
    {
      head, bitPos, pending := 0, 0, Zeros(64);
    }
  }

  /** Filling a word up: the waiting bits, then the first bits of the value. */
  lemma Fill(pending: Word64, value: Word32, bitPos: nat, rest: nat)
    requires bitPos < 64 && 64 - bitPos <= rest <= 32 && Fits(value, rest)
    ensures Or(ShiftLeft(pending, 64 - bitPos), Widen(ShiftRight(value, rest - (64 - bitPos))))
      == Low(pending, bitPos) + Low(value, rest)[..64 - bitPos]
  {
    var n := 64 - bitPos;
    var tmp := Widen(ShiftRight(value, rest - n));
    var r, word := Or(ShiftLeft(pending, n), tmp), Low(pending, bitPos) + Low(value, rest)[..n];
    forall k | 0 <= k < bitPos ensures r[k] == word[k] {
      HighBits(value, rest, n, k);
    }
    forall k | bitPos <= k < 64 ensures r[k] == word[k] {
      LowBits(value, rest, n, k);
    }
  }

  /** Where the shifted value lies in the word. */
  lemma HighBits(value: Word32, rest: nat, n: nat, k: nat)
    requires 0 < n <= rest <= 32 && Fits(value, rest) && k < 64 - n
    ensures !Widen(ShiftRight(value, rest - n))[k]
  {
  }

  lemma LowBits(value: Word32, rest: nat, n: nat, k: nat)
    requires 0 < n <= rest <= 32 && 64 - n <= k < 64
    ensures Widen(ShiftRight(value, rest - n))[k] == Low(value, rest)[..n][k - (64 - n)]
  {
  }

  /** Appending to a word: what stands above the waiting bits stays above them. */
  lemma Extend(pending: Word64, value: Word32, bitPos: nat, rest: nat)
    requires bitPos + rest < 64 && rest <= 32 && (bitPos == 0 || Fits(value, rest))
    ensures Low(Or(ShiftLeft(pending, rest), Widen(value)), bitPos + rest) == Low(pending, bitPos) + Low(value, rest)
  {
    var w := Or(ShiftLeft(pending, rest), Widen(value));
    forall k | 64 - bitPos - rest <= k < 64
      ensures w[k] == (Low(pending, bitPos) + Low(value, rest))[k - (64 - bitPos - rest)]
    {
    }
  }

  // ---- reading ----

  /** Bit `i` of byte `k` is bit `8 * k + i` of the stream. */
  lemma {:induction false} BitAt(bytes: seq<byte>, k: nat, i: nat)
    requires k < |bytes| && i < 8
    ensures Bits(bytes)[8 * k + i] == BitsOf(bytes[k])[i]
  {
    if k < |bytes| - 1 {
      BitAt(bytes[..|bytes| - 1], k, i);
    }
  }

  class BitstreamIn {
    var data: seq<byte>
    var tail: nat

    constructor ()
      ensures data == [] && tail == 0
    {
      data, tail := [], 0;
    }

    method Wrap(bytes: seq<byte>)
      modifies this
      ensures data == bytes && tail == 0
    {
      data := bytes;
      Reset();
    }

    method Reset()
      modifies this`tail
      ensures tail == 0
    {
      tail := 0;
    }

    function GetNumReadableWords(): nat
      requires tail <= |data|
      reads this
    {
      |data| - tail
    }

    method GetWord() returns (w: byte)
      requires tail < |data|
      modifies this`tail
      ensures w == data[old(tail)] && tail == old(tail) + 1
    {
      w := data[tail];
      tail := tail + 1;
    }
  }
}
