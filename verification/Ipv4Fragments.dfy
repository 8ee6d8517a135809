/** What becomes of fragments, and why their order does not matter. */
module Ipv4Fragments {
  import opened Bytes

  const BUFFER_SIZE := 64 * 1024
  const PURGE_AFTER_MS := 5000

  /** `headers` are the header bytes but for total length, flags and offset. */
  datatype Packet = Packet(ipv4: bool, id: nat, headers: seq<byte>, headerLength: nat, totalLength: nat,
                           offset: nat, more: bool, payload: seq<byte>)

  /** A packet, the times at which it is stored and old entries are looked for, and what memory
    * holds in case it is given to a new entry. */
  datatype Arrival = Arrival(p: Packet, now: nat, purgeNow: nat, blank: seq<byte>)

  /** The reassembler copies every payload to its offset in a buffer of 64K. */
  predicate Fits(a: Arrival) {
    a.p.offset + |a.p.payload| <= BUFFER_SIZE && |a.blank| == BUFFER_SIZE
  }

  datatype Assembly = Assembly(buffer: seq<byte>, currentLength: nat, totalLength: nat, timeStamp: nat)

  datatype State = State(storage: map<nat, Assembly>, delivered: seq<Packet>)

  predicate Fragmented(p: Packet) { p.offset != 0 || p.more }

  function Overwrite(buffer: seq<byte>, at: nat, data: seq<byte>): (r: seq<byte>)
    requires at + |data| <= |buffer|
    ensures |r| == |buffer|
  {
    buffer[..at] + data + buffer[at + |data|..]
  }

  predicate SoundEntry(e: Assembly) { |e.buffer| == BUFFER_SIZE && e.totalLength <= BUFFER_SIZE }

  ghost predicate Sound(s: State) {
    forall id | id in s.storage :: SoundEntry(s.storage[id])
  }

  /** The entry of a packet's id, or a new one. */
  function EntryOf(s: State, a: Arrival): Assembly {
    if a.p.id in s.storage then s.storage[a.p.id] else Assembly(a.blank, 0, 0, 0)
  }

  function Store(e: Assembly, p: Packet, now: nat): Assembly
    requires p.offset + |p.payload| <= |e.buffer|
  {
    Assembly(Overwrite(e.buffer, p.offset, p.payload), (e.currentLength + |p.payload|) % UINT32,
             if p.more then e.totalLength else p.offset + |p.payload|, now)
  }

  predicate Complete(e: Assembly) { e.totalLength != 0 && e.totalLength == e.currentLength }

  /** The headers of the fragment that completed it, made those of the whole; the length field
    * has 16 bits. */
  function Whole(p: Packet, payload: seq<byte>): Packet {
    p.(totalLength := (p.headerLength + |payload|) % UINT16, offset := 0, more := false, payload := payload)
  }

  /** What a listener takes for the payload: as many bytes behind the headers as the length field
    * says, computed in 32 bits. Nothing if those are more than the packet has. */
  function ReadLength(p: Packet): nat { (p.totalLength - p.headerLength) % UINT32 }

  function Read(p: Packet): Option<seq<byte>> {
    if ReadLength(p) <= |p.payload| then Some(p.payload[..ReadLength(p)]) else None
  }

  predicate Old(e: Assembly, ts: nat) { (ts - e.timeStamp) % UINT64 > PURGE_AFTER_MS }

  function Purge(s: State, ts: nat): State {
    s.(storage := map id | id in s.storage && !Old(s.storage[id], ts) :: s.storage[id])
  }

  function TakeFragment(s: State, a: Arrival): (t: State)
    requires Fits(a) && SoundEntry(EntryOf(s, a))
  {
    var e := Store(EntryOf(s, a), a.p, a.now);
    if Complete(e)
    then State(s.storage - {a.p.id}, s.delivered + [Whole(a.p, e.buffer[..e.currentLength])])
    else s.(storage := s.storage[a.p.id := e])
  }

  function OnPacket(s: State, a: Arrival): (t: State)
    requires Fits(a) && SoundEntry(EntryOf(s, a))
  {
    if !a.p.ipv4 then s
    else if !Fragmented(a.p) then Purge(s.(delivered := s.delivered + [a.p]), a.purgeNow)
    else Purge(TakeFragment(s, a), a.purgeNow)
  }

  lemma OnPacketSound(s: State, a: Arrival)
    requires Sound(s) && Fits(a)
    ensures SoundEntry(EntryOf(s, a)) && Sound(OnPacket(s, a))
  {
  }

  /** What was delivered stays delivered. */
  lemma DeliveredGrows(s: State, a: Arrival)
    requires Fits(a) && SoundEntry(EntryOf(s, a))
    ensures s.delivered <= OnPacket(s, a).delivered
  {
    hide Store, Complete, Whole;
  }

  lemma StoreSound(e: Assembly, p: Packet, now: nat)
    requires SoundEntry(e) && p.offset + |p.payload| <= BUFFER_SIZE
    ensures SoundEntry(Store(e, p, now)) && Store(e, p, now).buffer != []
  {
  }

  // ---- a datagram in pieces ----

  function Offset(pieces: seq<seq<byte>>, k: nat): nat
    requires k <= |pieces|
  {
    if k == 0 then 0 else Offset(pieces, k - 1) + |pieces[k - 1]|
  }

  function Joined(pieces: seq<seq<byte>>, k: nat): (r: seq<byte>)
    requires k <= |pieces|
    ensures |r| == Offset(pieces, k)
  {
    if k == 0 then [] else Joined(pieces, k - 1) + pieces[k - 1]
  }

  function Payload(pieces: seq<seq<byte>>): seq<byte> { Joined(pieces, |pieces|) }

  /** Two or more fragments, none of them empty, of a datagram that fits the buffer. */
  predicate Cut(pieces: seq<seq<byte>>) {
    && |pieces| >= 2 && Offset(pieces, |pieces|) < BUFFER_SIZE
    && forall k | 0 <= k < |pieces| :: pieces[k] != []
  }

  /** The packet carries the k-th piece. */
  predicate Carries(p: Packet, id: nat, pieces: seq<seq<byte>>, k: nat)
    requires k < |pieces|
  {
    p.ipv4 && p.id == id && p.offset == Offset(pieces, k) && p.payload == pieces[k] && p.more == (k < |pieces| - 1)
  }

  lemma {:induction false} OffsetGrows(pieces: seq<seq<byte>>, j: nat, k: nat)
    requires j <= k <= |pieces|
    ensures Offset(pieces, j) <= Offset(pieces, k)
    ensures j < k ==> Offset(pieces, j) + |pieces[j]| <= Offset(pieces, k)
  {
    if j < k { OffsetGrows(pieces, j, k - 1); }
  }

  // ---- fragments of it, in any order and repeated ----

  predicate Indices(pieces: seq<seq<byte>>, order: seq<nat>) {
    forall i | 0 <= i < |order| :: order[i] < |pieces|
  }

  predicate NoRepeats(order: seq<nat>) {
    forall i, j | 0 <= i < j < |order| :: order[i] != order[j]
  }

  predicate AllCame(pieces: seq<seq<byte>>, order: seq<nat>) {
    forall k | 0 <= k < |pieces| :: k in order
  }

  /** The bytes received, each as often as it came. */
  function Received(pieces: seq<seq<byte>>, order: seq<nat>): nat
    requires Indices(pieces, order)
  {
    if order == [] then 0 else Received(pieces, order[..|order| - 1]) + |pieces[order[|order| - 1]]|
  }

  /** What is in the buffer then. */
  function Written(memory: seq<byte>, pieces: seq<seq<byte>>, order: seq<nat>): (r: seq<byte>)
    requires Cut(pieces) && |memory| == BUFFER_SIZE && Indices(pieces, order)
    ensures |r| == BUFFER_SIZE
  {
    if order == [] then memory
    else
      var k := order[|order| - 1];
      OffsetGrows(pieces, k, |pieces|);
      Overwrite(Written(memory, pieces, order[..|order| - 1]), Offset(pieces, k), pieces[k])
  }

  /** The entry that was made in this memory and has taken fragments in this order. */
  function Entry(memory: seq<byte>, pieces: seq<seq<byte>>, order: seq<nat>, touched: nat): Assembly
    requires Cut(pieces) && |memory| == BUFFER_SIZE && Indices(pieces, order)
  {
    Assembly(Written(memory, pieces, order), Received(pieces, order) % UINT32,
             if |pieces| - 1 in order then Offset(pieces, |pieces|) else 0, touched)
  }

  lemma StoreNext(memory: seq<byte>, pieces: seq<seq<byte>>, order: seq<nat>, touched: nat, p: Packet, id: nat, k: nat, now: nat)
    requires Cut(pieces) && |memory| == BUFFER_SIZE && Indices(pieces, order) && k < |pieces| && Carries(p, id, pieces, k)
    ensures p.offset + |p.payload| <= BUFFER_SIZE && Indices(pieces, order + [k])
    ensures Store(Entry(memory, pieces, order, touched), p, now) == Entry(memory, pieces, order + [k], now)
  {
    hide Overwrite, Written, Received, Indices;
    OneMore(memory, pieces, order, k);
    AddModulo(Received(pieces, order), |pieces[k]|);
    if k == |pieces| - 1 { assert Offset(pieces, |pieces|) == p.offset + |p.payload|; }
  }

  lemma OneMore(memory: seq<byte>, pieces: seq<seq<byte>>, order: seq<nat>, k: nat)
    requires Cut(pieces) && |memory| == BUFFER_SIZE && Indices(pieces, order) && k < |pieces|
    ensures Indices(pieces, order + [k]) && Offset(pieces, k) + |pieces[k]| <= BUFFER_SIZE
    ensures Written(memory, pieces, order + [k]) == Overwrite(Written(memory, pieces, order), Offset(pieces, k), pieces[k])
    ensures Received(pieces, order + [k]) == Received(pieces, order) + |pieces[k]|
  {
    hide Overwrite;
    OffsetGrows(pieces, k, |pieces|);
    assert (order + [k])[..|order|] == order;
  }

  /** The reassembler takes it for complete. */
  predicate Completes(pieces: seq<seq<byte>>, order: seq<nat>)
    requires Indices(pieces, order)
  {
    |pieces| - 1 in order && Received(pieces, order) % UINT32 == Offset(pieces, |pieces|)
  }

  lemma CompleteExactly(memory: seq<byte>, pieces: seq<seq<byte>>, order: seq<nat>, touched: nat)
    requires Cut(pieces) && |memory| == BUFFER_SIZE && Indices(pieces, order)
    ensures Complete(Entry(memory, pieces, order, touched)) <==> Completes(pieces, order)
  {
    hide Written;
    OffsetGrows(pieces, 0, |pieces|);
  }

  /** What comes out of an entry: its buffer when it is complete. */
  function Outcome(p: Packet, memory: seq<byte>, pieces: seq<seq<byte>>, order: seq<nat>): seq<Packet>
    requires Cut(pieces) && |memory| == BUFFER_SIZE && Indices(pieces, order)
  {
    if Completes(pieces, order) then [Whole(p, Written(memory, pieces, order)[..Offset(pieces, |pieces|)])] else []
  }

  // ---- complete, and really so ----

  /** The lengths of the pieces of a set. */
  function Held(pieces: seq<seq<byte>>, came: set<nat>, n: nat): nat
    requires n <= |pieces|
  {
    if n == 0 then 0 else Held(pieces, came, n - 1) + if n - 1 in came then |pieces[n - 1]| else 0
  }

  lemma {:induction false} HeldOneMore(pieces: seq<seq<byte>>, came: set<nat>, n: nat, j: nat)
    requires n <= |pieces| && j !in came && j < |pieces|
    ensures Held(pieces, came + {j}, n) == Held(pieces, came, n) + if j < n then |pieces[j]| else 0
  {
    if n > 0 { HeldOneMore(pieces, came, n - 1, j); }
  }

  lemma {:induction false} HeldNothing(pieces: seq<seq<byte>>, n: nat)
    requires n <= |pieces|
    ensures Held(pieces, {}, n) == 0
  {
    if n > 0 { HeldNothing(pieces, n - 1); }
  }

  /** All bytes are held exactly when all pieces have come. */
  lemma {:induction false} HeldAllExactly(pieces: seq<seq<byte>>, came: set<nat>, n: nat)
    requires n <= |pieces| && forall k | 0 <= k < |pieces| :: pieces[k] != []
    ensures Held(pieces, came, n) <= Offset(pieces, n)
    ensures Held(pieces, came, n) == Offset(pieces, n) <==> forall k | 0 <= k < n :: k in came
  {
    if n > 0 { HeldAllExactly(pieces, came, n - 1); }
  }

  function Came(order: seq<nat>): set<nat> { set k | k in order }

  lemma CameOneMore(order: seq<nat>, k: nat)
    ensures Came(order + [k]) == Came(order) + {k}
    ensures NoRepeats(order + [k]) <==> NoRepeats(order) && k !in order
  {
    var next := order + [k];
    assert next[|order|] == k;
    if k in order {
      var i :| 0 <= i < |order| && order[i] == k;
      assert next[i] == next[|order|];
    }
    if !NoRepeats(order) {
      var i, j :| 0 <= i < j < |order| && order[i] == order[j];
      assert next[i] == next[j];
    }
  }

  /** More was received than is held exactly when something came twice. */
  lemma {:induction false} ReceivedExactly(pieces: seq<seq<byte>>, order: seq<nat>)
    requires Cut(pieces) && Indices(pieces, order)
    ensures Received(pieces, order) >= Held(pieces, Came(order), |pieces|)
    ensures Received(pieces, order) == Held(pieces, Came(order), |pieces|) <==> NoRepeats(order)
    ensures Received(pieces, order) <= |order| * 0xFFFF
  {
    hide Held, Came, NoRepeats;
    if order == [] {
      HeldNothing(pieces, |pieces|);
      NothingCame();
    } else {
      var init, k := order[..|order| - 1], order[|order| - 1];
      assert order == init + [k];
      ReceivedExactly(pieces, init);
      CameOneMore(init, k);
      OffsetGrows(pieces, k, |pieces|);
      IsIn(init, k);
      if k in init {
        assert Came(init) + {k} == Came(init);
      } else {
        HeldOneMore(pieces, Came(init), |pieces|, k);
      }
    }
  }

  lemma NothingCame()
    ensures Came([]) == {} && NoRepeats([])
  {
  }

  lemma IsIn(order: seq<nat>, k: nat)
    ensures k in Came(order) <==> k in order
  {
  }

  /** An entry that never took a fragment twice is complete when all pieces came, and only then.
    * One that took up to 2^16 fragments and is complete has all pieces exactly if none came
    * twice, and one that has all pieces is complete exactly if none came twice. */
  lemma RepeatsExactly(pieces: seq<seq<byte>>, order: seq<nat>)
    requires Cut(pieces) && Indices(pieces, order)
    ensures NoRepeats(order) ==> (Completes(pieces, order) <==> AllCame(pieces, order))
    ensures |order| <= UINT16 && Completes(pieces, order) ==> (AllCame(pieces, order) <==> NoRepeats(order))
    ensures |order| <= UINT16 && AllCame(pieces, order) ==> (Completes(pieces, order) <==> NoRepeats(order))
  {
    hide NoRepeats, Received, Held;
    ReceivedExactly(pieces, order);
    HeldAllExactly(pieces, Came(order), |pieces|);
    forall k ensures k in Came(order) <==> k in order { IsIn(order, k); }
    if AllCame(pieces, order) { assert |pieces| - 1 in order; }
    if |order| <= UINT16 { assert Received(pieces, order) < UINT32; }
  }

  // ---- what is in the buffer ----

  lemma OverwriteKeeps(buffer: seq<byte>, at: nat, data: seq<byte>, other: nat, piece: seq<byte>)
    requires at + |data| <= |buffer| && Has(buffer, other, piece)
    requires other + |piece| <= at || at + |data| <= other
    ensures Has(Overwrite(buffer, at, data), other, piece)
  {
    var r := Overwrite(buffer, at, data);
    assert r[other..other + |piece|] == buffer[other..other + |piece|];
  }

  lemma OverwriteHas(buffer: seq<byte>, at: nat, data: seq<byte>)
    requires at + |data| <= |buffer|
    ensures Has(Overwrite(buffer, at, data), at, data)
  {
  }

  /** Every piece that came is in its place, however often it and others came. */
  lemma {:induction false} WrittenHas(memory: seq<byte>, pieces: seq<seq<byte>>, order: seq<nat>, k: nat)
    requires Cut(pieces) && |memory| == BUFFER_SIZE && Indices(pieces, order) && k in order
    ensures Has(Written(memory, pieces, order), Offset(pieces, k), pieces[k])
  {
    hide Overwrite;
    var init, j := order[..|order| - 1], order[|order| - 1];
    OffsetGrows(pieces, j, |pieces|);
    var before := Written(memory, pieces, init);
    if j == k {
      OverwriteHas(before, Offset(pieces, k), pieces[k]);
    } else {
      assert order == init + [j];
      WrittenHas(memory, pieces, init, k);
      if j < k { OffsetGrows(pieces, j, k); } else { OffsetGrows(pieces, k, j); }
      OverwriteKeeps(before, Offset(pieces, j), pieces[j], Offset(pieces, k), pieces[k]);
    }
  }

  /** Where no piece came there is what memory held. */
  lemma {:induction false} WrittenLeaves(memory: seq<byte>, pieces: seq<seq<byte>>, order: seq<nat>, k: nat)
    requires Cut(pieces) && |memory| == BUFFER_SIZE && Indices(pieces, order) && k < |pieces| && k !in order
    ensures Offset(pieces, k) < Offset(pieces, |pieces|)
    ensures Written(memory, pieces, order)[Offset(pieces, k)] == memory[Offset(pieces, k)]
  {
    OffsetGrows(pieces, k, |pieces|);
    if order != [] {
      var init, j := order[..|order| - 1], order[|order| - 1];
      assert order == init + [j];
      OneMore(memory, pieces, init, j);
      hide Written;
      WrittenLeaves(memory, pieces, init, k);
      if j < k { OffsetGrows(pieces, j, k); } else { OffsetGrows(pieces, k, j); }
    }
  }

  /** The payload is there, whatever memory held before, exactly when all pieces came. */
  lemma PayloadExactly(pieces: seq<seq<byte>>, order: seq<nat>)
    requires Cut(pieces) && Indices(pieces, order)
    ensures (forall memory: seq<byte> | |memory| == BUFFER_SIZE ::
               Written(memory, pieces, order)[..Offset(pieces, |pieces|)] == Payload(pieces))
      <==> AllCame(pieces, order)
  {
    hide Written;
    if AllCame(pieces, order) {
      forall memory: seq<byte> | |memory| == BUFFER_SIZE
        ensures Written(memory, pieces, order)[..Offset(pieces, |pieces|)] == Payload(pieces)
      {
        PayloadThere(memory, pieces, order);
      }
    } else {
      var k :| 0 <= k < |pieces| && k !in order;
      var memory := PayloadNotThere(pieces, order, k);
    }
  }

  lemma PayloadThere(memory: seq<byte>, pieces: seq<seq<byte>>, order: seq<nat>)
    requires Cut(pieces) && |memory| == BUFFER_SIZE && Indices(pieces, order) && AllCame(pieces, order)
    ensures Written(memory, pieces, order)[..Offset(pieces, |pieces|)] == Payload(pieces)
  {
    hide Written;
    forall k | 0 <= k < |pieces| ensures Has(Written(memory, pieces, order), Offset(pieces, k), pieces[k]) {
      WrittenHas(memory, pieces, order, k);
    }
    Assembled(Written(memory, pieces, order), pieces, |pieces|);
  }

  lemma PayloadNotThere(pieces: seq<seq<byte>>, order: seq<nat>, k: nat) returns (memory: seq<byte>)
    requires Cut(pieces) && Indices(pieces, order) && k < |pieces| && k !in order
    ensures |memory| == BUFFER_SIZE
    ensures Written(memory, pieces, order)[..Offset(pieces, |pieces|)] != Payload(pieces)
  {
    hide Written;
    OffsetGrows(pieces, k, |pieces|);
    var at, total := Offset(pieces, k), Offset(pieces, |pieces|);
    var other: byte := if Payload(pieces)[at] == 0 then 1 else 0;
    memory := seq(BUFFER_SIZE, _ => other);
    WrittenLeaves(memory, pieces, order, k);
    assert Written(memory, pieces, order)[..total][at] == other;
  }

  lemma {:induction false} Assembled(buffer: seq<byte>, pieces: seq<seq<byte>>, n: nat)
    requires n <= |pieces| && forall k | 0 <= k < n :: Has(buffer, Offset(pieces, k), pieces[k])
    ensures Offset(pieces, n) <= |buffer| && buffer[..Offset(pieces, n)] == Joined(pieces, n)
  {
    hide *;
    if n == 0 {
      JoinedNothing(pieces);
    } else {
      Assembled(buffer, pieces, n - 1);
      JoinedNext(pieces, n);
      PrefixGrows(buffer, Offset(pieces, n - 1), pieces[n - 1]);
    }
  }

  lemma JoinedNothing(pieces: seq<seq<byte>>)
    ensures Offset(pieces, 0) == 0 && Joined(pieces, 0) == []
  {
  }

  lemma JoinedNext(pieces: seq<seq<byte>>, n: nat)
    requires 0 < n <= |pieces|
    ensures Offset(pieces, n) == Offset(pieces, n - 1) + |pieces[n - 1]|
    ensures Joined(pieces, n) == Joined(pieces, n - 1) + pieces[n - 1]
  {
  }

  lemma PrefixGrows(buffer: seq<byte>, at: nat, piece: seq<byte>)
    requires Has(buffer, at, piece)
    ensures at + |piece| <= |buffer| && buffer[..at + |piece|] == buffer[..at] + piece
  {
  }

  // ---- interleaved with everything else ----

  predicate Mine(a: Arrival, id: nat) { a.p.ipv4 && a.p.id == id && Fragmented(a.p) }

  /** The fragments of `id` among the arrivals are these pieces in this order. */
  predicate Follows(xs: seq<Arrival>, id: nat, pieces: seq<seq<byte>>, order: seq<nat>)
    decreases |xs|
  {
    if xs == [] then order == []
    else if Mine(xs[0], id) then
      order != [] && order[0] < |pieces| && Carries(xs[0].p, id, pieces, order[0])
      && Follows(xs[1..], id, pieces, order[1..])
    else Follows(xs[1..], id, pieces, order)
  }

  /** Until its last fragment the entry of `id` is never found old. */
  predicate Timely(xs: seq<Arrival>, id: nat, order: seq<nat>, started: bool, touched: nat)
    decreases |xs|
  {
    if xs == [] || order == [] then true
    else if Mine(xs[0], id) then
      && (|order| > 1 ==> (xs[0].purgeNow - xs[0].now) % UINT64 <= PURGE_AFTER_MS)
      && Timely(xs[1..], id, order[1..], true, xs[0].now)
    else
      && (started && xs[0].p.ipv4 ==> (xs[0].purgeNow - touched) % UINT64 <= PURGE_AFTER_MS)
      && Timely(xs[1..], id, order, started, touched)
  }

  /** What is delivered while fragments of `id` are handled, and the state behind. */
  function Run(s: State, xs: seq<Arrival>, id: nat): (r: (State, seq<Packet>))
    requires Sound(s) && forall x | x in xs :: Fits(x)
    ensures Sound(r.0)
    decreases |xs|
  {
    if xs == [] then (s, [])
    else
      OnPacketSound(s, xs[0]);
      DeliveredGrows(s, xs[0]);
      var t := OnPacket(s, xs[0]);
      var r := Run(t, xs[1..], id);
      (r.0, (if Mine(xs[0], id) then t.delivered[|s.delivered|..] else []) + r.1)
  }

  predicate PassesThrough(p: Packet) { p.ipv4 && !Fragmented(p) }

  /** The packets that are no fragments, as they arrive. */
  function Unfragmented(xs: seq<Arrival>): seq<Packet> {
    if xs == [] then [] else (if PassesThrough(xs[0].p) then [xs[0].p] else []) + Unfragmented(xs[1..])
  }

  /** All that a run delivers: what comes of fragments, and the rest. */
  function Split(s: State, xs: seq<Arrival>): (r: (State, seq<Packet>, seq<Packet>))
    requires Sound(s) && forall x | x in xs :: Fits(x)
    ensures Sound(r.0)
    decreases |xs|
  {
    if xs == [] then (s, [], [])
    else
      OnPacketSound(s, xs[0]);
      DeliveredGrows(s, xs[0]);
      var t := OnPacket(s, xs[0]);
      var r := Split(t, xs[1..]);
      var now := t.delivered[|s.delivered|..];
      if xs[0].p.ipv4 && Fragmented(xs[0].p) then (r.0, now + r.1, r.2) else (r.0, r.1, now + r.2)
  }

  /** Over any run: packets that are no fragments are delivered as they are, in their order, and for
    * what is not IPv4 nothing; each fragment makes one packet at most. Nothing else is delivered. */
  lemma {:induction false} UnfragmentedPass(s: State, xs: seq<Arrival>)
    requires Sound(s) && forall x | x in xs :: Fits(x)
    ensures var r := Split(s, xs);
      && r.2 == Unfragmented(xs) && |r.1| + |Unfragmented(xs)| <= |xs|
      && multiset(r.0.delivered) == multiset(s.delivered) + multiset(r.1) + multiset(r.2)
    decreases |xs|
  {
    hide Store, Complete, Whole;
    if xs != [] {
      OnPacketSound(s, xs[0]);
      DeliveredGrows(s, xs[0]);
      var t := OnPacket(s, xs[0]);
      UnfragmentedPass(t, xs[1..]);
      assert t.delivered == s.delivered + t.delivered[|s.delivered|..];
    }
  }

  /** The entry of `id` has taken fragments in this order, all since it was made. */
  ghost predicate Awaits(s: State, id: nat, memory: seq<byte>, pieces: seq<seq<byte>>, order: seq<nat>, touched: nat)
    requires Cut(pieces) && |memory| == BUFFER_SIZE && Indices(pieces, order)
  {
    if order == [] then id !in s.storage
    else id in s.storage && s.storage[id] == Entry(memory, pieces, order, touched)
  }

  /** Packets that are not fragments of `id` leave its entry alone while it is young. */
  lemma OthersSpare(s: State, a: Arrival, id: nat)
    requires Sound(s) && Fits(a) && !Mine(a, id)
    requires id in s.storage && a.p.ipv4 ==> (a.purgeNow - s.storage[id].timeStamp) % UINT64 <= PURGE_AFTER_MS
    ensures SoundEntry(EntryOf(s, a))
    ensures var t := OnPacket(s, a); id in t.storage <==> id in s.storage
    ensures id in s.storage ==> OnPacket(s, a).storage[id] == s.storage[id]
  {
    hide Store, Complete, Whole;
  }

  /** The next fragment completes the entry, or is kept. */
  lemma MineStored(s: State, a: Arrival, id: nat, memory: seq<byte>, pieces: seq<seq<byte>>, order: seq<nat>, touched: nat, k: nat)
    requires Sound(s) && Fits(a) && Cut(pieces) && |memory| == BUFFER_SIZE && Indices(pieces, order)
    requires Awaits(s, id, memory, pieces, order, touched) && (order == [] ==> memory == a.blank)
    requires Mine(a, id) && k < |pieces| && Carries(a.p, id, pieces, k)
    ensures Indices(pieces, order + [k]) && SoundEntry(EntryOf(s, a))
    ensures OnPacket(s, a).delivered == s.delivered + Outcome(a.p, memory, pieces, order + [k])
    ensures Completes(pieces, order + [k]) ==> id !in OnPacket(s, a).storage
    ensures !Completes(pieces, order + [k]) && (a.purgeNow - a.now) % UINT64 <= PURGE_AFTER_MS ==>
      Awaits(OnPacket(s, a), id, memory, pieces, order + [k], a.now)
  {
    hide Store, Whole, Cut, Carries, Written, Completes, Received, Complete;
    OnPacketSound(s, a);
    var before := if order == [] then 0 else touched;
    assert EntryOf(s, a) == Entry(memory, pieces, order, before) by { NothingStored(memory, pieces); }
    StoreNext(memory, pieces, order, before, a.p, id, k, a.now);
    CompleteExactly(memory, pieces, order + [k], a.now);
    if Completes(pieces, order + [k]) { LengthIs(pieces, order + [k]); }
    assert s.delivered + [] == s.delivered;
  }

  lemma NothingStored(memory: seq<byte>, pieces: seq<seq<byte>>)
    requires Cut(pieces) && |memory| == BUFFER_SIZE
    ensures Entry(memory, pieces, [], 0) == Assembly(memory, 0, 0, 0)
  {
  }

  lemma LengthIs(pieces: seq<seq<byte>>, order: seq<nat>)
    requires Indices(pieces, order) && Completes(pieces, order)
    ensures Received(pieces, order) % UINT32 == Offset(pieces, |pieces|)
  {
  }

  /** The last of the arrivals that is a fragment of `id`. */
  function LastMine(xs: seq<Arrival>, id: nat, before: Packet): Packet
    decreases |xs|
  {
    if xs == [] then before else LastMine(xs[1..], id, if Mine(xs[0], id) then xs[0].p else before)
  }

  /** The memory that the entry of `id` is made in. */
  function MemoryFor(xs: seq<Arrival>, id: nat): seq<byte>
    decreases |xs|
  {
    if xs == [] then [] else if Mine(xs[0], id) then xs[0].blank else MemoryFor(xs[1..], id)
  }

  lemma {:induction false} NoneLeft(xs: seq<Arrival>, id: nat, pieces: seq<seq<byte>>, before: Packet)
    requires Follows(xs, id, pieces, [])
    ensures LastMine(xs, id, before) == before
    ensures forall i | 0 <= i < |xs| :: !Mine(xs[i], id)
    decreases |xs|
  {
    if xs != [] {
      NoneLeft(xs[1..], id, pieces, before);
      assert forall i | 1 <= i < |xs| :: xs[i] == xs[1..][i - 1];
    }
  }

  /** Packets of others deliver nothing for `id`, and without an entry there is none later. */
  lemma {:induction false} RunOfOthers(s: State, xs: seq<Arrival>, id: nat)
    requires Sound(s) && forall x | x in xs :: Fits(x)
    requires forall i | 0 <= i < |xs| :: !Mine(xs[i], id)
    ensures var r := Run(s, xs, id); r.1 == [] && (id !in s.storage ==> id !in r.0.storage)
    decreases |xs|
  {
    if xs != [] {
      OnPacketSound(s, xs[0]);
      hide Store, Sound, Complete;
      assert !Mine(xs[0], id);
      assert forall i | 0 <= i < |xs[1..]| :: xs[1..][i] == xs[i + 1];
      RunOfOthers(OnPacket(s, xs[0]), xs[1..], id);
    }
  }

  /** Not complete before the last of these fragments. */
  predicate Unfinished(pieces: seq<seq<byte>>, order: seq<nat>)
    requires Indices(pieces, order)
  {
    forall n | 0 <= n < |order| :: !Completes(pieces, order[..n])
  }

  /** One entry, from its first fragment to the last of these: what comes out of it. */
  lemma {:induction false} RunOfEntry(s: State, xs: seq<Arrival>, id: nat, memory: seq<byte>, pieces: seq<seq<byte>>,
      came: seq<nat>, order: seq<nat>, touched: nat, before: Packet)
    requires Sound(s) && (forall x | x in xs :: Fits(x)) && Cut(pieces) && |memory| == BUFFER_SIZE
    requires Indices(pieces, came) && Indices(pieces, came + order) && Unfinished(pieces, came + order)
    requires order != [] && Follows(xs, id, pieces, order) && Timely(xs, id, order, came != [], touched)
    requires Awaits(s, id, memory, pieces, came, touched) && (came == [] ==> memory == MemoryFor(xs, id))
    ensures Run(s, xs, id).1 == Outcome(LastMine(xs, id, before), memory, pieces, came + order)
    ensures Completes(pieces, came + order) ==> id !in Run(s, xs, id).0.storage
    decreases |xs|
  {
    hide Outcome, Completes, Cut, Carries, Fits, Sound, OnPacket, Entry;
    OnPacketSound(s, xs[0]);
    var a, rest := xs[0], xs[1..];
    var t := OnPacket(s, a);
    if Mine(a, id) {
      var k := order[0];
      MineStored(s, a, id, memory, pieces, came, touched, k);
      var next := came + [k];
      assert next + order[1..] == came + order;
      if |order| == 1 {
        assert next == came + order;
        NoneLeft(rest, id, pieces, a.p);
        RunOfOthers(t, rest, id);
      } else {
        assert (came + order)[..|came| + 1] == next;
        NoOutcome(a.p, memory, pieces, next);
        RunOfEntry(t, rest, id, memory, pieces, next, order[1..], a.now, a.p);
      }
    } else {
      if came != [] { EntryTouched(memory, pieces, came, touched); }
      OthersSpare(s, a, id);
      RunOfEntry(t, rest, id, memory, pieces, came, order, touched, before);
    }
  }

  lemma EntryTouched(memory: seq<byte>, pieces: seq<seq<byte>>, order: seq<nat>, touched: nat)
    requires Cut(pieces) && |memory| == BUFFER_SIZE && Indices(pieces, order)
    ensures Entry(memory, pieces, order, touched).timeStamp == touched
  {
  }

  lemma NoOutcome(p: Packet, memory: seq<byte>, pieces: seq<seq<byte>>, order: seq<nat>)
    requires Cut(pieces) && |memory| == BUFFER_SIZE && Indices(pieces, order) && !Completes(pieces, order)
    ensures Outcome(p, memory, pieces, order) == []
  {
  }

  lemma {:induction false} MemoryFound(xs: seq<Arrival>, id: nat, pieces: seq<seq<byte>>, order: seq<nat>)
    requires Follows(xs, id, pieces, order) && order != [] && forall x | x in xs :: Fits(x)
    ensures xs != [] && |MemoryFor(xs, id)| == BUFFER_SIZE
    decreases |xs|
  {
    assert xs[0] in xs;
    if !Mine(xs[0], id) { MemoryFound(xs[1..], id, pieces, order); }
  }

  /** Fragments in any order, repeated or not, and with anything else in between, while their entry
    * is neither purged nor complete before the last of them. When all pieces are there, the whole
    * is delivered exactly if none came twice; and what is delivered is the whole exactly then,
    * unless memory happens to hold what is missing. */
  lemma {:induction false} DeliveredExactly(s: State, xs: seq<Arrival>, id: nat, pieces: seq<seq<byte>>, order: seq<nat>)
    requires Sound(s) && (forall x | x in xs :: Fits(x)) && Cut(pieces) && id !in s.storage
    requires Indices(pieces, order) && order != [] && Unfinished(pieces, order)
    requires Follows(xs, id, pieces, order) && Timely(xs, id, order, false, 0)
    ensures xs != [] && |MemoryFor(xs, id)| == BUFFER_SIZE
    ensures Run(s, xs, id).1 == Outcome(LastMine(xs, id, xs[0].p), MemoryFor(xs, id), pieces, order)
    ensures |order| <= UINT16 && AllCame(pieces, order) ==>
      (Run(s, xs, id).1 == [Whole(LastMine(xs, id, xs[0].p), Payload(pieces))] <==> NoRepeats(order))
    ensures |order| <= UINT16 && Run(s, xs, id).1 != [] ==> (AllCame(pieces, order) <==> NoRepeats(order))
  {
    hide Run, Cut, Written, Whole, Completes, AllCame, NoRepeats, Follows, Timely, Sound, Fits, Entry, Unfinished;
    MemoryFound(xs, id, pieces, order);
    var memory := MemoryFor(xs, id);
    assert [] + order == order;
    RunOfEntry(s, xs, id, memory, pieces, [], order, 0, xs[0].p);
    RepeatsExactly(pieces, order);
    if AllCame(pieces, order) { PayloadThere(memory, pieces, order); }
  }

  // ---- once each ----

  /** A fragment that completes all pieces came after the others. */
  lemma OnceIsUnfinished(pieces: seq<seq<byte>>, order: seq<nat>)
    requires Cut(pieces) && Indices(pieces, order) && NoRepeats(order)
    ensures Unfinished(pieces, order)
  {
    hide Cut, Completes;
    forall n | 0 <= n < |order| ensures !Completes(pieces, order[..n]) {
      RepeatsExactly(pieces, order[..n]);
      NotBefore(order, n);
    }
  }

  lemma NotBefore(order: seq<nat>, n: nat)
    requires NoRepeats(order) && n < |order|
    ensures NoRepeats(order[..n]) && order[n] !in order[..n]
  {
  }

  /** Header lengths have four bits, and count words. */
  predicate ShortHeader(p: Packet) { p.headerLength <= 60 }

  lemma {:induction false} LastMineIs(xs: seq<Arrival>, id: nat, before: Packet)
    requires ShortHeader(before) && forall x | x in xs :: ShortHeader(x.p)
    ensures ShortHeader(LastMine(xs, id, before))
    decreases |xs|
  {
    if xs != [] {
      assert forall x | x in xs[1..] :: x in xs;
      LastMineIs(xs[1..], id, if Mine(xs[0], id) then xs[0].p else before);
    }
  }

  /** A listener reads the payload exactly when the whole fits the length field. */
  lemma ReadExactly(p: Packet, payload: seq<byte>)
    requires ShortHeader(p) && |payload| < BUFFER_SIZE
    ensures Read(Whole(p, payload)) == Some(payload) <==> p.headerLength + |payload| < UINT16
    ensures p.headerLength + |payload| >= UINT16 ==> Read(Whole(p, payload)) == None
  {
    var length := p.headerLength + |payload|;
    if length < UINT16 {
      assert length % UINT16 == length;
      assert payload[..|payload|] == payload;
    } else {
      assert length % UINT16 == length - UINT16;
    }
  }

  /** With 20 bytes of headers, 65516 bytes of payload make the field zero, and what it says of
    * the payload some four gigabytes. */
  lemma LengthWraps(p: Packet, payload: seq<byte>)
    requires p.headerLength == 20 && |payload| == 65516
    ensures Whole(p, payload).totalLength == 0 && ReadLength(Whole(p, payload)) == 4294967276
    ensures Read(Whole(p, payload)) == None
  {
  }

  /** Fragments of a datagram in any order, once each and with anything else in between, while
    * their entry is not purged: exactly one packet is delivered for them, when the last of them
    * arrives, and its listeners read the original payload exactly if it fits the length field. */
  lemma {:induction false} OrderDoesNotMatter(s: State, xs: seq<Arrival>, id: nat, pieces: seq<seq<byte>>, order: seq<nat>)
    requires Sound(s) && (forall x | x in xs :: Fits(x) && ShortHeader(x.p)) && Cut(pieces) && id !in s.storage
    requires Indices(pieces, order) && NoRepeats(order) && AllCame(pieces, order)
    requires Follows(xs, id, pieces, order) && Timely(xs, id, order, false, 0)
    ensures xs != []
    ensures var r, last := Run(s, xs, id), LastMine(xs, id, xs[0].p);
      && r.1 == [Whole(last, Payload(pieces))] && id !in r.0.storage
      && (Read(r.1[0]) == Some(Payload(pieces)) <==> last.headerLength + |Payload(pieces)| < UINT16)
  {
    hide Run, Written, Whole, Read, Follows, Timely, Sound, Fits, Entry, Unfinished, Completes, Received, NoRepeats;
    assert 0 in order;
    MemoryFound(xs, id, pieces, order);
    OnceIsUnfinished(pieces, order);
    RepeatsExactly(pieces, order);
    PayloadThere(MemoryFor(xs, id), pieces, order);
    assert [] + order == order;
    RunOfEntry(s, xs, id, MemoryFor(xs, id), pieces, [], order, 0, xs[0].p);
    LastMineIs(xs, id, xs[0].p);
    ReadExactly(LastMine(xs, id, xs[0].p), Payload(pieces));
  }

  /** The last fragment alone, sent twice, completes an entry of which the first half was never
    * written. */
  lemma LastFragmentTwice(s: State, a: Arrival, b: Arrival)
    requires Sound(s) && Fits(a) && Fits(b) && a.p.id !in s.storage && a.p == b.p && Mine(a, a.p.id)
    requires !a.p.more && a.p.offset == |a.p.payload| && (a.purgeNow - a.now) % UINT64 <= PURGE_AFTER_MS
    ensures Sound(OnPacket(s, a)) && SoundEntry(EntryOf(s, a)) && SoundEntry(EntryOf(OnPacket(s, a), b))
    ensures OnPacket(OnPacket(s, a), b).delivered
      == s.delivered + [Whole(a.p, a.blank[..a.p.offset] + a.p.payload)]
  {
    OnPacketSound(s, a);
    var t := OnPacket(s, a);
    OnPacketSound(t, b);
    StoredTwice(a.blank, a.p, a.now, b.now);
    hide Store, Complete, OnPacket;
    Kept(s, a);
    Taken(t, b);
  }

  lemma StoredTwice(blank: seq<byte>, p: Packet, now: nat, later: nat)
    requires |blank| == BUFFER_SIZE && p.offset + |p.payload| <= BUFFER_SIZE
    requires !p.more && 0 < p.offset == |p.payload|
    ensures var e := Store(Assembly(blank, 0, 0, 0), p, now);
      !Complete(e) && |e.buffer| == BUFFER_SIZE
    ensures var e := Store(Store(Assembly(blank, 0, 0, 0), p, now), p, later);
      Complete(e) && e.currentLength <= BUFFER_SIZE == |e.buffer|
      && e.buffer[..e.currentLength] == blank[..p.offset] + p.payload
  {
  }

  lemma Kept(s: State, a: Arrival)
    requires Fits(a) && SoundEntry(EntryOf(s, a)) && Mine(a, a.p.id) && (a.purgeNow - a.now) % UINT64 <= PURGE_AFTER_MS
    requires !Complete(Store(EntryOf(s, a), a.p, a.now))
    ensures var t := OnPacket(s, a);
      t.delivered == s.delivered && a.p.id in t.storage && t.storage[a.p.id] == Store(EntryOf(s, a), a.p, a.now)
  {
    hide Overwrite;
  }

  lemma Taken(s: State, a: Arrival)
    requires Fits(a) && SoundEntry(EntryOf(s, a)) && Mine(a, a.p.id)
    requires Complete(Store(EntryOf(s, a), a.p, a.now))
    ensures var e := Store(EntryOf(s, a), a.p, a.now);
      && e.currentLength <= |e.buffer|
      && OnPacket(s, a).delivered == s.delivered + [Whole(a.p, e.buffer[..e.currentLength])]
  {
    hide Overwrite;
  }
}
