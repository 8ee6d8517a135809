/** Packets of a stream, and the round trip over any sequence of them. */
module QuickLzStream {
  import opened Bytes
  import opened QuickLzFormat
  import opened QuickLzGreedy
  import opened QuickLzRuns
  import opened QuickLzCompress
  import opened QuickLzDecompress

  const STREAMING_BUFFER := 100000
  const MAX_SIZE := 0xFFFF_FFFF - 400

  // ---- headers ----

  function HeaderBase(size: nat): nat { if size < 216 then 3 else 9 }

  /** Byte 0 holds the compressed bit, the long-header bit, the level, the streaming setting
    * and a bit that is always set. */
  function HeaderBytes(compressed: bool, r: nat, size: nat): (h: seq<byte>)
    ensures |h| == HeaderBase(size)
  {
    var flags := (if compressed then 1 else 0) + 4 + 16 + 64;
    if size < 216 then [flags, r % 256, size % 256]
    else [flags + 2] + LittleEndian(r) + LittleEndian(size)
  }

  predicate LongHeader(p: seq<byte>) requires |p| > 0 { p[0] / 2 % 2 == 1 }

  function SizeHeader(p: seq<byte>): nat requires |p| > 0 { if LongHeader(p) then 9 else 3 }

  function SizeDecompressed(p: seq<byte>): nat
    requires |p| > 0 && SizeHeader(p) <= |p|
  {
    if LongHeader(p) then FromLittleEndian(p[5..9]) else p[2]
  }

  function SizeCompressed(p: seq<byte>): nat
    requires |p| > 0 && SizeHeader(p) <= |p|
  {
    if LongHeader(p) then FromLittleEndian(p[1..5]) else p[1]
  }

  /** What a header says is what it was built from. */
  lemma HeaderRoundTrip(compressed: bool, r: nat, size: nat, body: seq<byte>)
    requires size <= MAX_SIZE && r <= size + 400 && (size < 216 ==> r < 256)
    ensures var p := HeaderBytes(compressed, r, size) + body;
      && SizeHeader(p) == HeaderBase(size) && p[SizeHeader(p)..] == body
      && SizeDecompressed(p) == size && SizeCompressed(p) == r && (p[0] % 2 == 1 <==> compressed)
  {
    var h := HeaderBytes(compressed, r, size);
    var p := h + body;
    assert p[0] == h[0];
    if size >= 216 {
      LittleEndianRoundTrip(r);
      LittleEndianRoundTrip(size);
      assert p[1..5] == LittleEndian(r) && p[5..9] == LittleEndian(size);
    }
  }

  // ---- packets ----

  predicate Streams(before: Context, payload: seq<byte>) {
    |before.data| + |payload| - 1 < STREAMING_BUFFER
  }

  /** A packet that does not fit behind the earlier ones is encoded on its own. */
  function Base(before: Context, payload: seq<byte>): Context {
    if Streams(before, payload) then before else Context([], {})
  }

  /** What both sides know after a packet. */
  function After(before: Context, payload: seq<byte>, compressed: bool, plan: Plan): Context {
    if !Streams(before, payload) then Context([], {})
    else Context(before.data + payload, if compressed then plan.hashed else {})
  }

  /** The payload, compressed according to the plan or stored. */
  ghost predicate IsBody(body: seq<byte>, payload: seq<byte>, before: Context, compressed: bool, plan: Plan) {
    if compressed then
      plan.data == Base(before, payload).data + payload && Encodes(body, Base(before, payload), plan)
    else body == payload
  }

  /** A body behind a header that tells both sizes and whether the body is compressed. */
  ghost predicate IsPacket(p: seq<byte>, payload: seq<byte>, before: Context, compressed: bool, plan: Plan) {
    && |p| > 0 && SizeHeader(p) <= |p| && (p[0] % 2 == 1 <==> compressed)
    && SizeDecompressed(p) == |payload| > 0 && SizeCompressed(p) == |p|
    && IsBody(p[SizeHeader(p)..], payload, before, compressed, plan)
  }

  /** The packet has the one greedy plan as its body, or the compressor gave up on that plan. */
  ghost predicate Outcome(payload: seq<byte>, before: Context, compressed: bool, plan: Plan) {
    var context := Base(before, payload);
    && Begins(context, context.data + payload, plan) && Greedy(plan)
    && if compressed then plan.Whole() && NeverPoor(plan, |plan.items| + 1) else TooPoor(plan, |plan.items|)
  }

  /** How many bytes of body that makes, nine at least if it is compressed. */
  function BodySize(payload: seq<byte>, compressed: bool, plan: Plan): nat
    requires AllEncodable(plan.items)
  {
    if compressed then Max(9, |Stream(plan.items, 0)|) else |payload|
  }

  lemma IsOutcome(body: seq<byte>, payload: seq<byte>, before: Context, data: seq<byte>, compressed: bool, plan: Plan)
    requires data == Base(before, payload).data + payload
    requires compressed ==> plan.data == data && Encodes(body, Base(before, payload), plan)
    requires if compressed then Greedy(plan) && NeverPoor(plan, |plan.items| + 1) else GivesUp(Base(before, payload), data, plan)
    ensures Outcome(payload, before, compressed, plan)
  {
    hide Greedy, NeverPoor, TooPoor, Stream, Base;
  }

  /** A packet is stored exactly if there is a beginning of its greedy plan that saves too little. */
  lemma StoredExactly(payload: seq<byte>, before: Context, compressed: bool, plan: Plan)
    requires Outcome(payload, before, compressed, plan)
    ensures var context := Base(before, payload);
      !compressed <==> exists p: Plan :: GivesUp(context, context.data + payload, p)
  {
    hide Greedy, NeverPoor, TooPoor, Base;
    var context := Base(before, payload);
    var data := context.data + payload;
    assert !compressed ==> GivesUp(context, data, plan);
    forall p: Plan | GivesUp(context, data, p) ensures !compressed {
      if compressed { OneOutcome(context, data, plan, p); }
    }
  }

  /** The first packet of a stream, if all of its bytes are equal, is compressed to at most four
    * bytes for every 255 of them and 51 more. */
  lemma RunOutcome(payload: seq<byte>, compressed: bool, plan: Plan)
    requires payload != [] && AllEqual(payload) && Outcome(payload, Context([], {}), compressed, plan)
    ensures compressed && BodySize(payload, compressed, plan) <= 4 * (|payload| / 255) + 51
  {
    hide Greedy, AllEqual, Stream, TooPoor, NeverPoor;
    assert [] + payload == payload;
    RunSaves(plan, |plan.items|);
    RunSize(plan);
  }

  // ---- the compressor ----

  class CompressState {
    const buffer: array<byte>
    const offset: array<int>
    const cache: array<seq<byte>>
    var streamCounter: nat

    /** The state a caller must start from: everything zero. */
    constructor ()
      ensures Holds(Context([], {})) && fresh(Repr())
    {
      buffer := new byte[STREAMING_BUFFER](_ => 0);
      offset := new int[HASH_VALUES](_ => NONE);
      cache := new seq<byte>[HASH_VALUES](_ => [0, 0, 0, 0]);
      streamCounter := 0;
    }

    ghost function Repr(): set<object> { {this, buffer, offset, cache} }

    ghost predicate Holds(context: Context)
      reads this, buffer, offset, cache
    {
      && context.Valid() && buffer.Length == STREAMING_BUFFER && streamCounter == |context.data| <= STREAMING_BUFFER
      && buffer[..streamCounter] == context.data
      && Finds(offset, cache, context.data, context.hashed, streamCounter - 1)
    }

    method ResetTable()
      requires IsTable(offset, cache)
      modifies offset
      ensures forall data, bound :: Finds(offset, cache, data, {}, bound)
    {
      forall h | 0 <= h < HASH_VALUES {
        offset[h] := NONE;
      }
      forall h, data: seq<byte>, bound ensures Latest({}, data, h, bound) == NONE { }
    }

    /** Encodes `buf` from `start` on behind the header, or stores it. */
    method CompressBody(buf: seq<byte>, start: nat, dest: array<byte>, base: nat, ghost context: Context)
      returns (r: nat, compressed: bool, ghost plan: Plan)
      requires start < |buf| && base + (|buf| - start) + 391 <= dest.Length
      requires context.Valid() && context.data == buf[..start]
      requires Finds(offset, cache, context.data, context.hashed, start - 1)
      modifies dest, offset, cache
      ensures base < r <= base + (|buf| - start) + 391 && dest[..base] == old(dest[..base])
      ensures |buf| - start < 216 && base <= 3 ==> r < 256
      ensures compressed ==> plan.data == buf && Encodes(dest[base..r], context, plan)
      ensures compressed ==> Finds(offset, cache, buf, plan.hashed, |buf| - 1)
      ensures !compressed ==> dest[base..r] == buf[start..]
      ensures IsTable(offset, cache)
      ensures if compressed then Greedy(plan) && NeverPoor(plan, |plan.items| + 1) else GivesUp(context, buf, plan)
      ensures r == base + BodySize(buf[start..], compressed, plan)
    {
      hide Encodes, Latest, Greedy, NeverPoor, TooPoor, Stream, GivesUp;
      r, plan := CompressCore(buf, start, dest, base, offset, cache, context);
      compressed := r != 0;
      if !compressed {
        StoreBody(buf, start, dest, base);
        r := |buf| - start;
      }
      r := base + r;
    }

    method StoreBody(buf: seq<byte>, start: nat, dest: array<byte>, base: nat)
      requires start <= |buf| && base + (|buf| - start) <= dest.Length
      modifies dest
      ensures dest[base..base + (|buf| - start)] == buf[start..] && dest[..base] == old(dest[..base])
    {
      forall k | 0 <= k < |buf| - start {
        dest[base + k] := buf[start + k];
      }
    }
  
    /** A packet that does not fit behind the earlier ones starts from an empty table and
      * leaves one. */
    method CompressAlone(source: seq<byte>, dest: array<byte>, base: nat, ghost before: Context)
      returns (r: nat, packed: bool, ghost plan: Plan)
      requires Holds(before) && dest != buffer && source != [] && !Streams(before, source)
      requires base + |source| + 391 <= dest.Length
      modifies this, buffer, offset, cache, dest
      ensures base < r <= base + |source| + 391 && (|source| < 216 && base <= 3 ==> r < 256)
      ensures IsBody(dest[base..r], source, before, packed, plan)
      ensures Holds(After(before, source, packed, plan))
      ensures Outcome(source, before, packed, plan) && r == base + BodySize(source, packed, plan)
    {
      hide Encodes, Finds, Greedy, NeverPoor, TooPoor, Stream;
      TableOf(offset, cache, before, streamCounter - 1);
      ResetTable();
      r, packed, plan := CompressBody(source, 0, dest, base, Context([], {}));
      assert [] + source == source && source[0..] == source;
      IsOutcome(dest[base..r], source, before, source, packed, plan);
      ResetTable();
      streamCounter := 0;
    }

    /** A packet that fits is put behind the earlier ones and may refer to them. */
    method CompressBehind(source: seq<byte>, dest: array<byte>, base: nat, ghost before: Context)
      returns (r: nat, packed: bool, ghost plan: Plan)
      requires Holds(before) && dest != buffer && source != [] && Streams(before, source)
      requires base + |source| + 391 <= dest.Length
      modifies this, buffer, offset, cache, dest
      ensures base < r <= base + |source| + 391 && (|source| < 216 && base <= 3 ==> r < 256)
      ensures IsBody(dest[base..r], source, before, packed, plan)
      ensures Holds(After(before, source, packed, plan))
      ensures Outcome(source, before, packed, plan) && r == base + BodySize(source, packed, plan)
    {
      hide Encodes, Finds, Greedy, NeverPoor, TooPoor, Stream;
      var size := |source|;
      forall k | 0 <= k < size {
        buffer[streamCounter + k] := source[k];
      }
      assert buffer[..streamCounter + size] == before.data + source;
      ghost var buf := buffer[..streamCounter + size];
      r, packed, plan := CompressBody(buffer[..streamCounter + size], streamCounter, dest, base, before);
      assert buf[streamCounter..] == source;
      IsOutcome(dest[base..r], source, before, buf, packed, plan);
      if packed { PlanIsValid(dest[base..r], before, plan); } else { ResetTable(); }
      streamCounter := streamCounter + size;
    }

    /** qlz_compress: an empty or oversized input gives nothing; any other gives a packet, at
      * most 400 bytes larger than the input. */
    method Compress(source: seq<byte>, dest: array<byte>, ghost before: Context)
      returns (r: nat, ghost compressed: bool, ghost plan: Plan)
      requires Holds(before) && |source| + 400 <= dest.Length && dest != buffer
      modifies this, buffer, offset, cache, dest
      ensures |source| == 0 || |source| > MAX_SIZE ==> r == 0 && Holds(before)
      ensures 0 < |source| <= MAX_SIZE ==> r <= |source| + 400 && IsPacket(dest[..r], source, before, compressed, plan)
      ensures 0 < |source| <= MAX_SIZE ==> Holds(After(before, source, compressed, plan))
      ensures 0 < |source| <= MAX_SIZE ==>
        Outcome(source, before, compressed, plan) && r == HeaderBase(|source|) + BodySize(source, compressed, plan)
    {
      hide Finds, IsBody, Outcome, BodySize;
      var size := |source|;
      plan, compressed := Plan([], [], [], {}), false;
      if size == 0 || size > MAX_SIZE { return 0, compressed, plan; }
      var packed;
      if streamCounter + size - 1 >= STREAMING_BUFFER {
        r, packed, plan := CompressAlone(source, dest, HeaderBase(size), before);
      } else {
        r, packed, plan := CompressBehind(source, dest, HeaderBase(size), before);
      }
      compressed := packed;
      WriteHeader(dest, packed, r, size, source, before, plan);
    }
  }

  lemma TableOf(offset: array<int>, cache: array<seq<byte>>, before: Context, bound: int)
    requires Finds(offset, cache, before.data, before.hashed, bound)
    ensures IsTable(offset, cache)
  {
  }

  /** Puts the header in front of a body, which makes it a packet. */
  method WriteHeader(dest: array<byte>, compressed: bool, r: nat, size: nat,
      ghost payload: seq<byte>, ghost before: Context, ghost plan: Plan)
    requires 0 < size == |payload| <= MAX_SIZE && HeaderBase(size) <= r <= dest.Length
    requires r <= size + 400 && (size < 216 ==> r < 256)
    requires IsBody(dest[HeaderBase(size)..r], payload, before, compressed, plan)
    modifies dest
    ensures IsPacket(dest[..r], payload, before, compressed, plan)
  {
    var h := HeaderBytes(compressed, r, size);
    ghost var body := dest[|h|..r];
    forall k | 0 <= k < |h| {
      dest[k] := h[k];
    }
    assert dest[..r] == h + body;
    HeaderRoundTrip(compressed, r, size, body);
  }

  lemma PlanIsValid(body: seq<byte>, context: Context, plan: Plan)
    requires Encodes(body, context, plan)
    ensures Context(plan.data, plan.hashed).Valid()
  {
  }

  /** A compressor that has hashed nothing cannot refer to any entry. */
  lemma KnowsNothing(table: array<int>)
    requires table.Length == HASH_VALUES
    ensures forall data, bound :: Knows(table, data, {}, bound)
  {
    forall h, data: seq<byte>, bound ensures Latest({}, data, h, bound) == NONE { }
  }

  // ---- the decompressor ----

  class DecompressState {
    const buffer: array<byte>
    const table: array<int>
    var streamCounter: nat

    constructor ()
      ensures Follows(Context([], {})) && fresh(Repr())
    {
      buffer := new byte[STREAMING_BUFFER](_ => 0);
      table := new int[HASH_VALUES](_ => 0);
      streamCounter := 0;
      new;
      KnowsNothing(table);
    }

    ghost function Repr(): set<object> { {this, buffer, table} }

    /** The decompressor has caught up with a context; table entries the compressor cannot
      * refer to may be stale. */
    ghost predicate Follows(context: Context)
      reads this, buffer, table
    {
      && context.Valid() && buffer.Length == STREAMING_BUFFER && streamCounter == |context.data| <= STREAMING_BUFFER
      && buffer[..streamCounter] == context.data && table.Length == HASH_VALUES
      && Knows(table, context.data, context.hashed, streamCounter - 1)
    }

    /** qlz_decompress: given the next packet of the stream, gives back its payload. */
    method Decompress(source: seq<byte>, destination: array<byte>,
        ghost payload: seq<byte>, ghost before: Context, ghost compressed: bool, ghost plan: Plan)
      returns (dsiz: nat)
      requires Follows(before) && IsPacket(source, payload, before, compressed, plan)
      requires |payload| <= destination.Length && destination != buffer
      modifies this, buffer, table, destination
      ensures dsiz == |payload| && destination[..dsiz] == payload
      ensures Follows(After(before, payload, compressed, plan))
    {
      hide Encodes, Knows, Latest;
      dsiz := SizeDecompressed(source);
      var header := SizeHeader(source);
      if streamCounter + dsiz - 1 >= STREAMING_BUFFER {
        KnowsNothing(table);
        if source[0] % 2 == 1 {
          DecompressCore(source, header, destination, 0, dsiz, table, Context([], {}), plan);
        } else {
          forall k | 0 <= k < dsiz {
            destination[k] := source[header + k];
          }
        }
        KnowsNothing(table);
        streamCounter := 0;
      } else {
        var dst := streamCounter;
        if source[0] % 2 == 1 {
          DecompressCore(source, header, buffer, dst, dsiz, table, before, plan);
          PlanIsValid(source[header..], before, plan);
        } else {
          forall k | 0 <= k < dsiz {
            buffer[dst + k] := source[header + k];
          }
          KnowsNothing(table);
        }
        assert buffer[..dst + dsiz] == before.data + payload;
        forall k | 0 <= k < dsiz {
          destination[k] := buffer[dst + k];
        }
        streamCounter := streamCounter + dsiz;
      }
    }
  }

  // ---- any sequence of packets ----

  /** One packet through both sides, which stay in step. */
  method Transfer(sender: CompressState, receiver: DecompressState, packet: seq<byte>, ghost before: Context)
    returns (received: seq<byte>, ghost after: Context)
    requires sender.Holds(before) && receiver.Follows(before) && sender.Repr() !! receiver.Repr()
    requires 0 < |packet| <= MAX_SIZE
    modifies sender.Repr(), receiver.Repr()
    ensures received == packet && sender.Holds(after) && receiver.Follows(after)
  {
    hide CompressState.Holds, DecompressState.Follows, IsPacket;
    var dest := new byte[|packet| + 400];
    var r, compressed, plan := sender.Compress(packet, dest, before);
    var output := new byte[|packet|];
    var dsiz := receiver.Decompress(dest[..r], output, packet, before, compressed, plan);
    received, after := output[..dsiz], After(before, packet, compressed, plan);
  }

  /** Whatever non-empty packets are sent, each compressed packet, decompressed in order by
    * one receiver whose state also started zeroed, gives back the packet that was sent. */
  method StreamRoundTrip(packets: seq<seq<byte>>) returns (received: seq<seq<byte>>)
    requires forall i | 0 <= i < |packets| :: 0 < |packets[i]| <= MAX_SIZE
    ensures received == packets
  {
    var sender := new CompressState();
    var receiver := new DecompressState();
    ghost var context := Context([], {});
    received := [];
    for i := 0 to |packets|
      invariant fresh(sender.Repr()) && fresh(receiver.Repr()) && sender.Repr() !! receiver.Repr()
      invariant sender.Holds(context) && receiver.Follows(context) && received == packets[..i]
    {
      var payload;
      payload, context := Transfer(sender, receiver, packets[i], context);
      received := received + [payload];
    }
  }
}
