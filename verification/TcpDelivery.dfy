/** What a listener hears of its connection, over any run of packets. */
module TcpDelivery {
  import opened Bytes
  import opened TcpDirection
  import opened TcpRuns
  import opened TcpConnections

  /** The bytes a listener was given from one side. */
  function BytesFrom(initiator: bool, calls: seq<Event>): seq<byte> {
    if calls == [] then []
    else
      var e := calls[0];
      (if IsData(e) && e.FromInitiator? == initiator then e.data else []) + BytesFrom(initiator, calls[1..])
  }

  lemma {:induction false} BytesFromConcat(initiator: bool, a: seq<Event>, b: seq<Event>)
    ensures BytesFrom(initiator, a + b) == BytesFrom(initiator, a) + BytesFrom(initiator, b)
  {
    if a == [] {
      assert a + b == b;
    } else {
      assert (a + b)[1..] == a[1..] + b;
      BytesFromConcat(initiator, a[1..], b);
    }
  }

  lemma ClosingAddsNothing(initiator: bool, calls: seq<Event>)
    ensures BytesFrom(initiator, calls + [Close]) == BytesFrom(initiator, calls)
  {
    BytesFromConcat(initiator, calls, [Close]);
    var one := [Close];
    assert one[1..] == [];
  }

  lemma {:induction false} WrappedBytes(initiator: bool, fromInitiator: bool, data: seq<seq<byte>>)
    ensures BytesFrom(initiator, Wrap(fromInitiator, data)) == if fromInitiator == initiator then Joined(data) else []
  {
    if data != [] {
      WrappedBytes(initiator, fromInitiator, data[1..]);
      assert Wrap(fromInitiator, data)[1..] == Wrap(fromInitiator, data[1..]);
    }
  }

  /** Connection `id` reports to listener `k`, which so far heard the beginning of `sent`, up to
    * the number expected next. */
  ghost predicate Delivering(s: State, k: nat, id: nat, initiator: bool, sent: ByteStream) {
    && k < |s.heard| && id in s.streams && s.streams[id].listener == k
    && Ordered(DirOf(s.streams[id], initiator), sent, BytesFrom(initiator, s.heard[k]))
  }

  /** It was closed after hearing some beginning of `sent`. */
  ghost predicate Delivered(s: State, k: nat, initiator: bool, sent: ByteStream) {
    k < |s.heard| && Ended(s.heard[k]) && BytesFrom(initiator, s.heard[k]) <= sent.bytes
  }

  predicate FromSide(s: State, p: Packet, id: nat, initiator: bool)
    requires id in s.streams
  {
    IdOf(p) == id && (p.dstPort == s.streams[id].localPort) == initiator
  }

  /** A SYN-ACK sets the number of the answering side anew, and adds one to that of the side it
    * comes from. Whether that leaves the number of a side as it is. */
  predicate KeepsNumber(s: State, p: Packet, id: nat, initiator: bool)
    requires id in s.streams
  {
    var next := DirOf(s.streams[id], initiator).next;
    NumberAfter(s, p, id, initiator) == next
  }

  function NumberAfter(s: State, p: Packet, id: nat, initiator: bool): nat
    requires id in s.streams
  {
    var n := if initiator then s.streams[id].fromInitiator.next else p.seqNumber;
    if FromSide(s, p, id, initiator) then (n + 1) % UINT32 else n
  }

  /** If the packet belongs to that side of that connection it carries a piece of `sent`; without
    * the advance, one that does not make the call skip. A SYN-ACK leaves the number of the side as
    * it is, and carries nothing from it. */
  ghost predicate Fits(advance: bool, s: State, p: Packet, id: nat, initiator: bool, sent: ByteStream) {
    id in s.streams && IdOf(p) == id && (p.syn ==> p.ack) ==>
      && (p.syn ==> KeepsNumber(s, p, id, initiator))
      && (p.payload != [] && FromSide(s, p, id, initiator) ==> !p.syn && CallFits(advance, s, p, id, initiator, sent))
  }

  ghost predicate CallFits(advance: bool, s: State, p: Packet, id: nat, initiator: bool, sent: ByteStream)
    requires id in s.streams
  {
    var x := Segment(p.seqNumber, p.payload);
    sent.Contains(x) && (advance || !Skips(DirOf(s.streams[id], initiator), x))
  }

  /** The connection and what was heard of it stayed, or it was closed. */
  ghost predicate StaysOrCloses(s: State, t: State, k: nat, id: nat) {
    && k < |s.heard| && k < |t.heard| && id in s.streams
    && (|| (id in t.streams && t.streams[id] == s.streams[id] && t.heard[k] == s.heard[k])
        || t.heard[k] == s.heard[k] + [Close])
  }

  lemma StayedDelivers(s: State, t: State, k: nat, id: nat, initiator: bool, sent: ByteStream)
    requires Inv(s) && Delivering(s, k, id, initiator, sent) && StaysOrCloses(s, t, k, id)
    ensures Delivering(t, k, id, initiator, sent) || Delivered(t, k, initiator, sent)
  {
    hide Live, Ended, BytesFrom, Counting;
    ClosingAddsNothing(initiator, s.heard[k]);
    LiveIsNotEnded(s.heard[k]);
  }

  lemma CloseCloses(s: State, k: nat, id: nat, other: nat)
    requires Inv(s) && id in s.streams && s.streams[id].listener == k && other in s.streams
    ensures StaysOrCloses(s, CloseStream(s, other), k, id)
  {
    hide Live, Ended, Counting, SmallStream;
  }

  lemma {:induction false} PurgeStaysOrCloses(s: State, todo: set<nat>, now: nat, k: nat, id: nat)
    requires Inv(s) && todo <= s.streams.Keys && id in s.streams && s.streams[id].listener == k
    ensures StaysOrCloses(s, PurgeAll(s, todo, now), k, id)
    decreases |todo|
  {
    hide Inv, TimedOut, CloseStream, PurgeAll;
    InvHasListeners(s);
    if todo == {} {
      NothingToPurge(s, now);
    } else {
      LeastExists(todo);
      var x :| IsLeast(x, todo);
      PurgeNext(s, todo, now, x);
      var t := PurgeOne(s, x, now);
      PurgeOneKeeps(s, x, now);
      if TimedOut(s.streams[x], now) { CloseCloses(s, k, id, x); }
      if t.heard[k] == s.heard[k] + [Close] {
        PurgeKeeps(t, todo - {x}, now);
        IsEnded(s, t, k, id);
      } else {
        PurgeStaysOrCloses(t, todo - {x}, now, k, id);
      }
    }
  }

  lemma NothingToPurge(s: State, now: nat)
    requires ListenersThere(s)
    ensures PurgeAll(s, {}, now) == s
  {
  }

  lemma IsEnded(s: State, t: State, k: nat, id: nat)
    requires Inv(s) && id in s.streams && s.streams[id].listener == k && k < |t.heard| && t.heard[k] == s.heard[k] + [Close]
    ensures Ended(t.heard[k])
  {
    LiveIsNotEnded(s.heard[k]);
  }

  lemma PurgeOldStaysOrCloses(s: State, now: nat, k: nat, id: nat)
    requires Inv(s) && id in s.streams && s.streams[id].listener == k
    ensures ListenersThere(s) && StaysOrCloses(s, PurgeOld(s, now), k, id)
  {
    hide PurgeAll, Inv;
    InvHasListeners(s);
    var t := s.(purgeCnt := 0);
    CountersOnly(s, t);
    PurgeStaysOrCloses(t, t.streams.Keys, now, k, id);
  }

  // ---- one packet ----

  lemma CallDelivers(advance: bool, d: Dir, sent: ByteStream, given: seq<byte>, x: Segment)
    requires Ordered(d, sent, given) && sent.Contains(x) && (advance || !Skips(d, x))
    ensures var r := Reassembled(advance, d, x.seqNumber, x.data); Ordered(r.dir, sent, given + Joined(r.data))
  {
    hide Reassembled, Skips;
    if !advance { OneCall(d, sent, given, x); }
    ReAssembleOrdered(d, sent, given, x);
  }

  lemma PayloadDelivers(advance: bool, s: State, p: Packet, k: nat, id: nat, initiator: bool, sent: ByteStream)
    requires Inv(s) && ListenersThere(s) && Delivering(s, k, id, initiator, sent) && IdOf(p) in s.streams
    requires IdOf(p) == id && p.payload != [] && FromSide(s, p, id, initiator) ==> CallFits(advance, s, p, id, initiator, sent)
    ensures Delivering(TakePayload(advance, s, IdOf(p), p).0, k, id, initiator, sent)
  {
    hide Reassembled, Ordered, BytesFrom, Live, Ended, Counting, Wrap, SmallStream, Skips;
    var x := IdOf(p);
    if p.payload != [] {
      var st := s.streams[x];
      var fromInitiator := p.dstPort == st.localPort;
      var r := Reassembled(advance, DirOf(st, fromInitiator), p.seqNumber, p.payload);
      if x == id {
        BytesFromConcat(initiator, s.heard[k], Wrap(fromInitiator, r.data));
        WrappedBytes(initiator, fromInitiator, r.data);
        if fromInitiator == initiator {
          CallDelivers(advance, DirOf(st, initiator), sent, BytesFrom(initiator, s.heard[k]), Segment(p.seqNumber, p.payload));
        } else {
          assert BytesFrom(initiator, s.heard[k]) + [] == BytesFrom(initiator, s.heard[k]);
        }
      }
    }
  }

  lemma FlagsDeliver(s: State, p: Packet, k: nat, id: nat, initiator: bool, sent: ByteStream)
    requires Inv(s) && ListenersThere(s) && Delivering(s, k, id, initiator, sent) && IdOf(p) in s.streams
    requires IdOf(p) == id && (p.dstPort == s.streams[id].localPort) == initiator ==> !p.syn
    ensures var t := TakeFlags(s, IdOf(p), p); Delivering(t, k, id, initiator, sent) || Delivered(t, k, initiator, sent)
  {
    hide Ordered, BytesFrom, Inv, CloseStream, Live, Ended;
    var x := IdOf(p);
    var st := Flagged(s.streams[x], p);
    if st.numFin == 2 || p.rst {
      CloseCloses(s, k, id, x);
      SameClosing(s, x, st);
      StayedDelivers(s, CloseStream(s, x), k, id, initiator, sent);
    }
  }

  /** The stream's last state does not matter when it is closed. */
  lemma SameClosing(s: State, id: nat, st: Stream)
    requires ListenersThere(s) && id in s.streams && st.listener == s.streams[id].listener
    ensures CloseStream(PutStream(s, id, st), id) == CloseStream(s, id)
  {
    assert s.streams[id := st] - {id} == s.streams - {id};
  }

  lemma HandleDelivers(advance: bool, s: State, p: Packet, now: nat, purgeNow: nat, k: nat, id: nat, initiator: bool, sent: ByteStream)
    requires Inv(s) && ListenersThere(s) && Delivering(s, k, id, initiator, sent) && IdOf(p) in s.streams
    requires IdOf(p) == id && p.payload != [] && FromSide(s, p, id, initiator) ==> CallFits(advance, s, p, id, initiator, sent)
    requires IdOf(p) == id && (p.dstPort == s.streams[id].localPort) == initiator ==> !p.syn
    ensures var t := Handle(advance, s, IdOf(p), p, now, purgeNow); Delivering(t, k, id, initiator, sent) || Delivered(t, k, initiator, sent)
  {
    hide Inv, Extends, TakePayload, TakeFlags, PurgeOld, Ordered, BytesFrom, CloseStream, Live, Ended;
    var x := IdOf(p);
    SmallOf(s, x);
    var st := s.streams[x].(lastActivity := now);
    var s1 := PutStream(s, x, st);
    PutKeeps(s, x, st);
    var r := TakePayload(advance, s1, x, p);
    PayloadKeeps(advance, s1, x, p);
    PayloadDelivers(advance, s1, p, k, id, initiator, sent);
    PayloadKeepsPort(advance, s1, x, p);
    if !r.1 {
      CloseCloses(r.0, k, id, x);
      StayedDelivers(r.0, CloseStream(r.0, x), k, id, initiator, sent);
    } else {
      var s2 := TakeFlags(r.0, x, p);
      FlagsKeep(r.0, x, p);
      FlagsDeliver(r.0, p, k, id, initiator, sent);
      PurgeOldKeeps(s2, purgeNow);
      AfterPurge(s2, purgeNow, k, id, initiator, sent);
    }
  }

  lemma AfterPurge(s: State, now: nat, k: nat, id: nat, initiator: bool, sent: ByteStream)
    requires Inv(s) && ListenersThere(s) && (Delivering(s, k, id, initiator, sent) || Delivered(s, k, initiator, sent))
    ensures var t := PurgeOld(s, now); Delivering(t, k, id, initiator, sent) || Delivered(t, k, initiator, sent)
  {
    hide Inv, PurgeOld, Ordered, BytesFrom, Live, Ended;
    PurgeOldKeeps(s, now);
    if Delivering(s, k, id, initiator, sent) {
      PurgeOldStaysOrCloses(s, now, k, id);
      StayedDelivers(s, PurgeOld(s, now), k, id, initiator, sent);
    }
  }

  lemma PayloadKeepsPort(advance: bool, s: State, id: nat, p: Packet)
    requires ListenersThere(s) && id in s.streams
    ensures TakePayload(advance, s, id, p).0.streams[id].localPort == s.streams[id].localPort
  {
    hide Reassembled;
  }

  /** As long as every packet of one side carries a piece of what that side sent, and without the
    * advance none makes the code skip, the listener hears a beginning of that from it and nothing
    * else, whatever other packets come. */
  lemma PacketDelivers(advance: bool, s: State, p: Packet, now: nat, purgeNow: nat, k: nat, id: nat, initiator: bool, sent: ByteStream)
    requires Inv(s) && Delivering(s, k, id, initiator, sent) && Fits(advance, s, p, id, initiator, sent)
    ensures ListenersThere(s)
    ensures var t := OnPacket(advance, s, p, now, purgeNow); Delivering(t, k, id, initiator, sent) || Delivered(t, k, initiator, sent)
  {
    hide Inv, Handle, Ordered, BytesFrom, CloseStream, Live, Ended;
    InvHasListeners(s);
    var x := IdOf(p);
    if p.containsTcp {
      if p.syn && !p.ack {
        if x in s.streams {
          var t := s.(numIDCollision := (s.numIDCollision + 1) % UINT32);
          CountersOnly(s, t);
          CloseCloses(t, k, id, x);
          StayedDelivers(t, CloseStream(t, x), k, id, initiator, sent);
        } else {
          AcceptKeeps(s, x, p);
          HandleDelivers(advance, Accept(s, x, p), p, now, purgeNow, k, id, initiator, sent);
        }
      } else if x in s.streams {
        if p.syn {
          SynAckDelivers(advance, s, p, now, purgeNow, k, id, initiator, sent);
        } else {
          HandleDelivers(advance, s, p, now, purgeNow, k, id, initiator, sent);
        }
      }
    }
  }

  function Renumbered(s: State, id: nat, p: Packet): Stream
    requires id in s.streams
  {
    s.streams[id].(toInitiator := s.streams[id].toInitiator.(next := p.seqNumber))
  }

  lemma SynAckDelivers(advance: bool, s: State, p: Packet, now: nat, purgeNow: nat, k: nat, id: nat, initiator: bool, sent: ByteStream)
    requires Inv(s) && ListenersThere(s) && Delivering(s, k, id, initiator, sent) && Fits(advance, s, p, id, initiator, sent)
    requires p.containsTcp && p.syn && p.ack && IdOf(p) in s.streams
    ensures var t := OnPacket(advance, s, p, now, purgeNow); Delivering(t, k, id, initiator, sent) || Delivered(t, k, initiator, sent)
  {
    hide Inv, Handle, Ordered, BytesFrom, Live, Ended;
    var x := IdOf(p);
    var st1 := Renumbered(s, x, p);
    SmallOf(s, x);
    PutKeeps(s, x, st1);
    var s1 := PutStream(s, x, st1);
    if x == id && FromSide(s, p, id, initiator) {
      HandleNumbers(advance, s1, p, now, purgeNow, k, id, initiator, p.seqNumber, sent);
    } else {
      HandleDelivers(advance, s1, p, now, purgeNow, k, id, initiator, sent);
    }
  }

  /** Every packet of the run fits when it arrives. */
  ghost predicate AllFit(advance: bool, s: State, arrivals: seq<Arrival>, k: nat, id: nat, initiator: bool, sent: ByteStream)
    requires ListenersThere(s)
    decreases |arrivals|
  {
    arrivals == [] ||
    var a := arrivals[0];
    && (id in s.streams && s.streams[id].listener == k ==> Fits(advance, s, a.packet, id, initiator, sent))
    && AllFit(advance, OnPacket(advance, s, a.packet, a.now, a.purgeNow), arrivals[1..], k, id, initiator, sent)
  }

  /** The same over whole runs. */
  lemma {:induction false} RunDelivers(advance: bool, s: State, arrivals: seq<Arrival>, k: nat, id: nat, initiator: bool, sent: ByteStream)
    requires Inv(s) && ListenersThere(s) && (Delivering(s, k, id, initiator, sent) || Delivered(s, k, initiator, sent))
    requires AllFit(advance, s, arrivals, k, id, initiator, sent)
    ensures var t := RunAll(advance, s, arrivals); Delivering(t, k, id, initiator, sent) || Delivered(t, k, initiator, sent)
    decreases |arrivals|
  {
    hide Inv, OnPacket, Ordered, BytesFrom, Live, Ended, Fits;
    if arrivals != [] {
      var a := arrivals[0];
      PacketKeeps(advance, s, a.packet, a.now, a.purgeNow);
      if Delivering(s, k, id, initiator, sent) {
        PacketDelivers(advance, s, a.packet, a.now, a.purgeNow, k, id, initiator, sent);
      }
      RunDelivers(advance, OnPacket(advance, s, a.packet, a.now, a.purgeNow), arrivals[1..], k, id, initiator, sent);
    }
  }

  // ---- how delivery begins ----

  /** A side that sent nothing yet, and the number of whose SYN is known. */
  ghost predicate Silent(s: State, k: nat, id: nat, initiator: bool, seqNumber: nat) {
    && k < |s.heard| && id in s.streams && s.streams[id].listener == k
    && DirOf(s.streams[id], initiator) == Dir(seqNumber, []) && BytesFrom(initiator, s.heard[k]) == []
  }

  /** With one more, the number of a side is the one that its listener has come to. */
  ghost predicate Numbered(s: State, k: nat, id: nat, initiator: bool, n: nat, sent: ByteStream) {
    && k < |s.heard| && id in s.streams && s.streams[id].listener == k
    && var d := DirOf(s.streams[id], initiator);
       d.next == n && Ordered(d.(next := (n + 1) % UINT32), sent, BytesFrom(initiator, s.heard[k]))
  }

  /** A SYN that carries nothing takes that one number. */
  lemma HandleNumbers(advance: bool, s: State, p: Packet, now: nat, purgeNow: nat, k: nat, id: nat, initiator: bool, n: nat, sent: ByteStream)
    requires Inv(s) && ListenersThere(s) && Numbered(s, k, id, initiator, n, sent) && FromSide(s, p, id, initiator)
    requires p.syn && p.payload == []
    ensures var t := Handle(advance, s, id, p, now, purgeNow); Delivering(t, k, id, initiator, sent) || Delivered(t, k, initiator, sent)
  {
    hide Inv, Extends, PurgeOld, BytesFrom, CloseStream, Ordered, Live, Ended;
    SmallOf(s, id);
    var st := s.streams[id].(lastActivity := now);
    var s1 := PutStream(s, id, st);
    PutKeeps(s, id, st);
    SynTaken(s1, p, purgeNow, k, id, initiator, n, sent);
  }

  lemma SynTaken(s: State, p: Packet, purgeNow: nat, k: nat, id: nat, initiator: bool, n: nat, sent: ByteStream)
    requires Inv(s) && ListenersThere(s) && Numbered(s, k, id, initiator, n, sent) && FromSide(s, p, id, initiator) && p.syn
    ensures var t := PurgeOld(TakeFlags(s, id, p), purgeNow); Delivering(t, k, id, initiator, sent) || Delivered(t, k, initiator, sent)
  {
    hide Inv, Extends, PurgeOld, TakeFlags, Ordered;
    FlagsKeep(s, id, p);
    FlagsNumber(s, p, k, id, initiator, n, sent);
    AfterPurge(TakeFlags(s, id, p), purgeNow, k, id, initiator, sent);
  }

  lemma FlagsNumber(s: State, p: Packet, k: nat, id: nat, initiator: bool, n: nat, sent: ByteStream)
    requires Inv(s) && ListenersThere(s) && Numbered(s, k, id, initiator, n, sent) && FromSide(s, p, id, initiator) && p.syn
    ensures var t := TakeFlags(s, id, p); Delivering(t, k, id, initiator, sent) || Delivered(t, k, initiator, sent)
  {
    hide Inv, BytesFrom, Live, Ended, CloseStream;
    var st := Flagged(s.streams[id], p);
    if st.numFin == 2 || p.rst {
      SameClosing(s, id, st);
      CloseCloses(s, k, id, id);
      IsEndedBy(s, CloseStream(s, id), k, id);
      ClosingAddsNothing(initiator, s.heard[k]);
    }
  }

  /** The SYN of a side is taken, with the first bytes of that side if it carries any: from now on
    * its listener hears what comes behind. */
  lemma HandleBegins(advance: bool, s: State, p: Packet, now: nat, purgeNow: nat, k: nat, id: nat, initiator: bool, sent: ByteStream)
    requires Inv(s) && ListenersThere(s) && Silent(s, k, id, initiator, p.seqNumber) && FromSide(s, p, id, initiator)
    requires p.syn && p.payload <= sent.bytes && sent.Valid() && sent.base == p.seqNumber + 1
    ensures var t := Handle(advance, s, id, p, now, purgeNow); Delivering(t, k, id, initiator, sent) || Delivered(t, k, initiator, sent)
  {
    hide Inv, Extends, PurgeOld, BytesFrom, CloseStream, Numbered, Live, Ended, TakePayload, TakeFlags;
    SmallOf(s, id);
    var st := s.streams[id].(lastActivity := now);
    var s1 := PutStream(s, id, st);
    PutKeeps(s, id, st);
    var r := TakePayload(advance, s1, id, p);
    PayloadKeeps(advance, s1, id, p);
    PayloadKeepsPort(advance, s1, id, p);
    PayloadBegins(advance, s1, p, k, id, initiator, sent);
    SynTaken(r.0, p, purgeNow, k, id, initiator, p.seqNumber + |p.payload|, sent);
  }

  lemma PayloadBegins(advance: bool, s: State, p: Packet, k: nat, id: nat, initiator: bool, sent: ByteStream)
    requires Inv(s) && ListenersThere(s) && Silent(s, k, id, initiator, p.seqNumber) && FromSide(s, p, id, initiator)
    requires p.payload <= sent.bytes && sent.Valid() && sent.base == p.seqNumber + 1
    ensures var r := TakePayload(advance, s, id, p); r.1 && Numbered(r.0, k, id, initiator, p.seqNumber + |p.payload|, sent)
  {
    hide Inv, BytesFrom, Wrap, Reassembled, Drain;
    assert sent.bytes[..|p.payload|] == p.payload && sent.bytes[..0] == [];
    if p.payload != [] {
      FirstReassembled(advance, p.seqNumber, p.payload);
      BytesFromConcat(initiator, s.heard[k], Wrap(initiator, [p.payload]));
      WrappedBytes(initiator, initiator, [p.payload]);
      JoinedOne(p.payload);
      assert [] + p.payload == p.payload;
    }
  }

  lemma FirstReassembled(advance: bool, n: nat, payload: seq<byte>)
    ensures Reassembled(advance, Dir(n, []), n, payload) == Result(Dir((n + |payload|) % UINT32, []), [payload], true)
  {
    var d := Dir((n + |payload|) % UINT32, []);
    NothingBuffered(d.next);
    NothingToDrain(advance, d);
    hide Drain, IndexOf;
    assert [payload] + [] == [payload];
  }

  lemma NothingBuffered(n: nat)
    ensures IndexOf([], n) == -1
  {
  }

  lemma IsEndedBy(s: State, t: State, k: nat, id: nat)
    requires Inv(s) && ListenersThere(s) && id in s.streams && s.streams[id].listener == k && t == CloseStream(s, id)
    ensures k < |t.heard| && t.heard[k] == s.heard[k] + [Close] && Ended(t.heard[k])
  {
    hide Live, Ended, Counting, SmallStream;
    IsEnded(s, t, k, id);
  }

  /** A new connection delivers what its initiator sends behind the SYN. */
  lemma InitiatorBegins(advance: bool, s: State, p: Packet, now: nat, purgeNow: nat, sent: ByteStream)
    requires Inv(s) && p.containsTcp && p.syn && !p.ack && IdOf(p) !in s.streams
    requires p.payload <= sent.bytes && sent.Valid() && sent.base == p.seqNumber + 1
    ensures ListenersThere(s)
    ensures var t, k := OnPacket(advance, s, p, now, purgeNow), |s.heard|;
      Delivering(t, k, IdOf(p), true, sent) || Delivered(t, k, true, sent)
  {
    hide Inv, Handle;
    InvHasListeners(s);
    var one := [Open];
    assert one[1..] == [];
    AcceptKeeps(s, IdOf(p), p);
    HandleBegins(advance, Accept(s, IdOf(p), p), p, now, purgeNow, |s.heard|, IdOf(p), true, sent);
  }

  /** A connection that was answered delivers what the other side sends behind its SYN. */
  lemma AnswerBegins(advance: bool, s: State, p: Packet, now: nat, purgeNow: nat, k: nat, id: nat, seqNumber: nat, sent: ByteStream)
    requires Inv(s) && p.containsTcp && p.syn && p.ack && Silent(s, k, id, false, seqNumber) && FromSide(s, p, id, false)
    requires p.payload <= sent.bytes && sent.Valid() && sent.base == p.seqNumber + 1
    ensures ListenersThere(s)
    ensures var t := OnPacket(advance, s, p, now, purgeNow); Delivering(t, k, id, false, sent) || Delivered(t, k, false, sent)
  {
    hide Inv, Handle, BytesFrom;
    InvHasListeners(s);
    var st := s.streams[id];
    var st1 := st.(toInitiator := st.toInitiator.(next := p.seqNumber));
    SmallOf(s, id);
    PutKeeps(s, id, st1);
    HandleBegins(advance, PutStream(s, id, st1), p, now, purgeNow, k, id, false, sent);
  }

  // ---- a SYN-ACK that comes later ----

  lemma OrderedAt(d: Dir, sent: ByteStream, given: seq<byte>, n: nat)
    requires Ordered(d, sent, given)
    ensures Ordered(d.(next := n), sent, given) <==> n == d.next
  {
  }

  /** What is left of a stream when old ones were purged is as it was. */
  lemma PurgeLeavesIt(s: State, now: nat, k: nat, id: nat)
    requires Inv(s) && ListenersThere(s) && id in s.streams && s.streams[id].listener == k
    ensures var t := PurgeOld(s, now);
      id in t.streams ==> k < |t.heard| && t.streams[id] == s.streams[id] && t.heard[k] == s.heard[k]
  {
    hide PurgeAll, Inv, Live, Ended;
    var c := s.(purgeCnt := 0);
    CountersOnly(s, c);
    PurgeLeaves(c, c.streams.Keys, now);
    PurgeOldKeeps(s, now);
    PurgeOldStaysOrCloses(s, now, k, id);
    var t := PurgeOld(s, now);
    if id in t.streams && t.heard[k] == s.heard[k] + [Close] {
      IsEnded(s, t, k, id);
      LiveThere(t, id);
    }
  }

  lemma LiveThere(s: State, id: nat)
    requires Inv(s) && id in s.streams
    ensures s.streams[id].listener < |s.heard| && !Ended(s.heard[s.streams[id].listener])
  {
    LiveIsNotEnded(s.heard[s.streams[id].listener]);
  }

  /** Behind a SYN-ACK without payload that does not end the connection, the listener is where it
    * should be exactly if the number of the side is still the same. */
  lemma SynAckExactly(advance: bool, s: State, p: Packet, now: nat, purgeNow: nat, k: nat, id: nat, initiator: bool, sent: ByteStream)
    requires Inv(s) && Delivering(s, k, id, initiator, sent) && IdOf(p) == id
    requires p.containsTcp && p.syn && p.ack && p.payload == []
    ensures ListenersThere(s)
    ensures var t := OnPacket(advance, s, p, now, purgeNow);
      id in t.streams ==> (Delivering(t, k, id, initiator, sent) <==> KeepsNumber(s, p, id, initiator))
  {
    hide Inv, Ordered, BytesFrom, Live, Ended, PurgeOld, CloseStream;
    InvHasListeners(s);
    var st1 := Renumbered(s, id, p);
    SmallOf(s, id);
    PutKeeps(s, id, st1);
    var s1 := PutStream(s, id, st1);
    var st2 := st1.(lastActivity := now);
    SmallOf(s1, id);
    PutKeeps(s1, id, st2);
    var s2 := PutStream(s1, id, st2);
    FlagsKeep(s2, id, p);
    var s3 := TakeFlags(s2, id, p);
    PurgeOldKeeps(s3, purgeNow);
    if id !in s3.streams {
      ClosedIsGone(s3, purgeNow, id);
    } else {
      NotClosed(s2, p, id);
      PurgeLeavesIt(s3, purgeNow, k, id);
      OrderedAt(DirOf(s.streams[id], initiator), sent, BytesFrom(initiator, s.heard[k]), NumberAfter(s, p, id, initiator));
    }
  }

  lemma ClosedIsGone(s: State, now: nat, id: nat)
    requires ListenersThere(s) && id !in s.streams
    ensures id !in PurgeOld(s, now).streams
  {
    hide PurgeAll;
    PurgeLeaves(s.(purgeCnt := 0), s.streams.Keys, now);
  }

  lemma NotClosed(s: State, p: Packet, id: nat)
    requires ListenersThere(s) && id in s.streams && id in TakeFlags(s, id, p).streams
    ensures TakeFlags(s, id, p) == PutStream(s, id, Flagged(s.streams[id], p))
  {
  }

  // ---- an input for which that goes wrong ----

  function Syn(): Packet { Packet(true, 1, 2, 3, 80, 0, true, false, false, false, []) }

  function SynAck(): Packet { Packet(true, 2, 1, 80, 3, 0, true, true, false, false, []) }

  function OneByte(): Packet { Packet(true, 2, 1, 80, 3, 1, false, true, false, false, [97]) }

  function At(p: Packet): Arrival { Arrival(p, 0, 0) }

  /** The connection of these packets, after `n` of them. */
  function Connected(n: nat, next: nat, calls: seq<Event>): State {
    State(map[IdOf(Syn()) := Stream(Dir(1, []), Dir(next, []), 80, 0, 0, 0)], [calls], n, 1, 1, 0, 0, 0)
  }

  lemma AfterSyn(advance: bool)
    ensures OnPacket(advance, Initial(), Syn(), 0, 0) == Connected(1, 0, [Open])
  {
    hide PurgeAll, Reassembled;
    var s := Accept(Initial(), IdOf(Syn()), Syn());
    assert s.streams == map[IdOf(Syn()) := Stream(Dir(0, []), Dir(0, []), 80, 0, 0, 0)] && s.heard == [[Open]];
  }

  lemma AfterSynAck(advance: bool, n: nat, next: nat, calls: seq<Event>)
    requires n < 60
    ensures OnPacket(advance, Connected(n, next, calls), SynAck(), 0, 0) == Connected(n + 1, 1, calls)
  {
    hide PurgeAll, Reassembled;
    assert IdOf(SynAck()) == IdOf(Syn());
  }

  lemma AfterByte(advance: bool, n: nat, calls: seq<Event>)
    requires n < 60
    ensures OnPacket(advance, Connected(n, 1, calls), OneByte(), 0, 0) == Connected(n + 1, 2, calls + [ToInitiator([97])])
  {
    hide PurgeAll, Drain, IndexOf;
    assert IdOf(OneByte()) == IdOf(Syn());
    NothingBuffered(2);
    NothingToDrain(advance, Dir(2, []));
    var data: seq<seq<byte>> := [[97]];
    assert Reassembled(advance, Dir(1, []), 1, [97]) == Result(Dir(2, []), data, true);
    hide Reassembled;
    assert data[1..] == [];
    assert Wrap(false, data) == [ToInitiator([97])];
  }

  /** The answering side sends one byte, its SYN-ACK and its segment come twice: the listener hears
    * the byte twice, with the advance and without. */
  lemma RepeatedSynAck(advance: bool)
    ensures var t := RunAll(advance, Initial(), [At(Syn()), At(SynAck()), At(OneByte()), At(SynAck()), At(OneByte())]);
      |t.heard| == 1 && BytesFrom(false, t.heard[0]) == [97, 97]
  {
    hide *;
    var once: seq<Event> := [Open] + [ToInitiator([97])];
    var twice := once + [ToInitiator([97])];
    AfterSyn(advance);
    AfterSynAck(advance, 1, 0, [Open]);
    AfterByte(advance, 2, [Open]);
    AfterSynAck(advance, 3, 2, once);
    AfterByte(advance, 4, once);
    HeardOf(5, 2, twice);
    BytesTwice([97]);
    ListensAt(1, 0, [Open]);
    ListensAt(2, 1, [Open]);
    ListensAt(3, 2, once);
    ListensAt(4, 1, once);
    ListensAt(5, 2, twice);
    RunOfFive(advance, Initial(), At(Syn()), At(SynAck()), At(OneByte()));
  }

  lemma ListensAt(n: nat, next: nat, calls: seq<Event>)
    ensures ListenersThere(Connected(n, next, calls)) && ListenersThere(Initial())
    ensures At(Syn()) == Arrival(Syn(), 0, 0) && At(SynAck()) == Arrival(SynAck(), 0, 0) && At(OneByte()) == Arrival(OneByte(), 0, 0)
  {
  }

  lemma HeardOf(n: nat, next: nat, calls: seq<Event>)
    ensures Connected(n, next, calls).heard == [calls]
  {
  }

  lemma BytesTwice(data: seq<byte>)
    ensures BytesFrom(false, [Open] + [ToInitiator(data)] + [ToInitiator(data)]) == data + data
  {
    var one: seq<Event> := [ToInitiator(data)];
    var open: seq<Event> := [Open];
    assert one[1..] == [] && open[1..] == [];
    BytesFromConcat(false, open + one, one);
    BytesFromConcat(false, open, one);
  }

  lemma RunOfFive(advance: bool, s: State, a: Arrival, b: Arrival, c: Arrival)
    requires ListenersThere(s)
    ensures var s1 := OnPacket(advance, s, a.packet, a.now, a.purgeNow);
      var s2 := OnPacket(advance, s1, b.packet, b.now, b.purgeNow);
      var s3 := OnPacket(advance, s2, c.packet, c.now, c.purgeNow);
      var s4 := OnPacket(advance, s3, b.packet, b.now, b.purgeNow);
      RunAll(advance, s, [a, b, c, b, c]) == OnPacket(advance, s4, c.packet, c.now, c.purgeNow)
  {
    hide OnPacket;
    var s1 := OnPacket(advance, s, a.packet, a.now, a.purgeNow);
    var s2 := OnPacket(advance, s1, b.packet, b.now, b.purgeNow);
    var s3 := OnPacket(advance, s2, c.packet, c.now, c.purgeNow);
    var s4 := OnPacket(advance, s3, b.packet, b.now, b.purgeNow);
    var s5 := OnPacket(advance, s4, c.packet, c.now, c.purgeNow);
    RunFirst(advance, s, a, [b, c, b, c]);
    RunFirst(advance, s1, b, [c, b, c]);
    RunFirst(advance, s2, c, [b, c]);
    RunFirst(advance, s3, b, [c]);
    RunFirst(advance, s4, c, []);
    assert RunAll(advance, s5, []) == s5;
    hide *;
    assert [a] + [b, c, b, c] == [a, b, c, b, c] && [b] + [c, b, c] == [b, c, b, c];
    assert [c] + [b, c] == [c, b, c] && [b] + [c] == [b, c] && [c] + [] == [c];
  }

  lemma RunFirst(advance: bool, s: State, a: Arrival, rest: seq<Arrival>)
    requires ListenersThere(s)
    ensures RunAll(advance, s, [a] + rest) == RunAll(advance, OnPacket(advance, s, a.packet, a.now, a.purgeNow), rest)
  {
    assert ([a] + rest)[1..] == rest;
  }
}
