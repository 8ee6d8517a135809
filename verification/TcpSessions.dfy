/** Whole connections: each packet, their end, and when all is heard. */
module TcpSessions {
  import opened Bytes
  import opened TcpDirection
  import opened TcpRuns
  import opened TcpHandover
  import opened TcpArrivals
  import opened TcpConnections
  import opened TcpDelivery

  // ---- what one packet does to one side of one connection ----

  predicate Lives(s: State, k: nat, id: nat) {
    id in s.streams && s.streams[id].listener == k
  }

  /** The listener heard `data` from that side; the connection goes on with that side as `d`, or
    * was closed. */
  ghost predicate Effect(s: State, t: State, k: nat, id: nat, initiator: bool, d: Dir, data: seq<byte>) {
    && k < |s.heard| && k < |t.heard| && Lives(s, k, id)
    && BytesFrom(initiator, t.heard[k]) == BytesFrom(initiator, s.heard[k]) + data
    && (|| (Lives(t, k, id) && t.streams[id].localPort == s.streams[id].localPort && DirOf(t.streams[id], initiator) == d)
        || Ended(t.heard[k]))
  }

  /** The packet is from that side of the connection. */
  predicate Comes(p: Packet, id: nat, port: nat, initiator: bool) {
    p.containsTcp && IdOf(p) == id && (p.dstPort == port) == initiator
  }

  /** A SYN-ACK sets the number of the answering side before anything else. */
  function Renewed(d: Dir, p: Packet, id: nat, initiator: bool): Dir {
    if p.containsTcp && p.syn && IdOf(p) == id && !initiator then d.(next := p.seqNumber) else d
  }

  /** A SYN takes one number. */
  function Counted(d: Dir, p: Packet): Dir {
    if p.syn then d.(next := (d.next + 1) % UINT32) else d
  }

  function Taken(advance: bool, d: Dir, p: Packet): Result {
    if p.payload == [] then Result(d, [], true) else Reassembled(advance, d, p.seqNumber, p.payload)
  }

  /** What a packet of a live connection does to one of its sides. */
  function SideAfter(advance: bool, d: Dir, p: Packet, id: nat, port: nat, initiator: bool): Result {
    var e := Renewed(d, p, id, initiator);
    if Comes(p, id, port, initiator) then
      var r := Taken(advance, e, p);
      Result(Counted(r.dir, p), r.data, r.ok)
    else Result(e, [], true)
  }

  /** A SYN for a connection that is there. */
  predicate Collides(p: Packet, id: nat) {
    p.containsTcp && p.syn && !p.ack && IdOf(p) == id
  }

  lemma EffectThenStays(s: State, t: State, u: State, k: nat, id: nat, initiator: bool, d: Dir, data: seq<byte>)
    requires Inv(t) && Lives(t, k, id) && Effect(s, t, k, id, initiator, d, data) && !Ended(t.heard[k]) && StaysOrCloses(t, u, k, id)
    ensures Effect(s, u, k, id, initiator, d, data)
  {
    hide Live, Ended, BytesFrom, Counting;
    ClosingAddsNothing(initiator, t.heard[k]);
    LiveIsNotEnded(t.heard[k]);
  }

  lemma PayloadEffect(advance: bool, s: State, p: Packet, x: nat, k: nat, id: nat, initiator: bool)
    requires Inv(s) && ListenersThere(s) && Lives(s, k, id) && x in s.streams && p.containsTcp && IdOf(p) == x
    ensures var t := TakePayload(advance, s, x, p).0;
      var d := DirOf(s.streams[id], initiator);
      if Comes(p, id, s.streams[id].localPort, initiator)
      then var r := Taken(advance, d, p); Effect(s, t, k, id, initiator, r.dir, Joined(r.data)) && TakePayload(advance, s, x, p).1 == r.ok
      else Effect(s, t, k, id, initiator, d, [])
    ensures Lives(TakePayload(advance, s, x, p).0, k, id)
  {
    hide Reassembled, BytesFrom, Live, Ended, Counting, Wrap, SmallStream;
    var d := DirOf(s.streams[id], initiator);
    var heard := s.heard[k];
    assert BytesFrom(initiator, heard) + [] == BytesFrom(initiator, heard);
    if p.payload != [] && x == id {
      var st := s.streams[x];
      var fromInitiator := p.dstPort == st.localPort;
      var r := Reassembled(advance, DirOf(st, fromInitiator), p.seqNumber, p.payload);
      BytesFromConcat(initiator, heard, Wrap(fromInitiator, r.data));
      WrappedBytes(initiator, fromInitiator, r.data);
    }
  }

  /** The numbers of a connection after the flags of a packet, or it was closed. */
  lemma FlagsEffect(s: State, p: Packet, x: nat, k: nat, id: nat, initiator: bool)
    requires Inv(s) && ListenersThere(s) && Lives(s, k, id) && x in s.streams && p.containsTcp && IdOf(p) == x
    ensures var t := TakeFlags(s, x, p);
      var d := DirOf(s.streams[id], initiator);
      Effect(s, t, k, id, initiator, if Comes(p, id, s.streams[id].localPort, initiator) then Counted(d, p) else d, [])
      && (Lives(t, k, id) || Ended(t.heard[k]))
  {
    hide Inv, BytesFrom, Live, Ended, Counting, SmallStream, CloseStream;
    assert BytesFrom(initiator, s.heard[k]) + [] == BytesFrom(initiator, s.heard[k]);
    var st := Flagged(s.streams[x], p);
    if st.numFin == 2 || p.rst {
      SameClosing(s, x, st);
      CloseEffect(s, k, id, x, initiator);
    }
  }

  lemma CloseEffect(s: State, k: nat, id: nat, x: nat, initiator: bool)
    requires Inv(s) && ListenersThere(s) && Lives(s, k, id) && x in s.streams
    ensures var t := CloseStream(s, x);
      Effect(s, t, k, id, initiator, DirOf(s.streams[id], initiator), [])
      && (if x == id then Ended(t.heard[k]) else Lives(t, k, id) && t.streams[id] == s.streams[id] && t.heard[k] == s.heard[k])
  {
    hide BytesFrom, Live, Ended, Counting, SmallStream;
    assert BytesFrom(initiator, s.heard[k]) + [] == BytesFrom(initiator, s.heard[k]);
    ClosingAddsNothing(initiator, s.heard[k]);
    LiveIsNotEnded(s.heard[k]);
  }

  lemma LiveIsOpen(s: State, k: nat, id: nat)
    requires Inv(s) && ListenersThere(s) && Lives(s, k, id)
    ensures k < |s.heard| && !Ended(s.heard[k])
  {
    LiveIsNotEnded(s.heard[k]);
  }

  lemma EffectThen(s: State, t: State, u: State, k: nat, id: nat, initiator: bool, d: Dir, e: Dir, data: seq<byte>)
    requires Lives(s, k, id) && Lives(t, k, id) && t.streams[id].localPort == s.streams[id].localPort
    requires Effect(s, t, k, id, initiator, d, data) && Effect(t, u, k, id, initiator, e, [])
    ensures Effect(s, u, k, id, initiator, e, data)
  {
    hide BytesFrom, Ended;
  }

  lemma PayloadKeepsPorts(advance: bool, s: State, x: nat, p: Packet, id: nat)
    requires ListenersThere(s) && id in s.streams && x in s.streams
    ensures var t := TakePayload(advance, s, x, p).0; id in t.streams && t.streams[id].localPort == s.streams[id].localPort
  {
    hide Reassembled;
  }

  lemma SameBefore(s: State, s1: State, t: State, k: nat, id: nat, initiator: bool, d: Dir, data: seq<byte>)
    requires Lives(s, k, id) && Lives(s1, k, id) && s1.heard == s.heard && s1.streams[id].localPort == s.streams[id].localPort
    requires Effect(s1, t, k, id, initiator, d, data)
    ensures Effect(s, t, k, id, initiator, d, data)
  {
    hide BytesFrom, Ended;
  }

  lemma DirAfter(s: State, t: State, k: nat, id: nat, initiator: bool, d: Dir, data: seq<byte>)
    requires Inv(t) && ListenersThere(t) && Lives(t, k, id) && Effect(s, t, k, id, initiator, d, data)
    ensures DirOf(t.streams[id], initiator) == d && t.streams[id].localPort == s.streams[id].localPort
  {
    LiveIsOpen(t, k, id);
    hide BytesFrom, Ended, Inv;
  }

  lemma EffectOfEnded(s: State, t: State, k: nat, id: nat, initiator: bool, d: Dir, data: seq<byte>)
    requires Effect(s, t, k, id, initiator, d, data) && Ended(t.heard[k])
    ensures forall e :: Effect(s, t, k, id, initiator, e, data)
  {
    hide BytesFrom, Ended;
  }

  lemma EndedStays(s: State, t: State, u: State, k: nat, id: nat, initiator: bool, d: Dir, data: seq<byte>)
    requires Effect(s, t, k, id, initiator, d, data) && Ended(t.heard[k]) && Extends(t, u)
    ensures Effect(s, u, k, id, initiator, d, data)
  {
    hide BytesFrom, Ended;
  }

  /** A packet of a known connection, handled to the end. */
  lemma HandleEffect(advance: bool, s: State, x: nat, p: Packet, now: nat, purgeNow: nat, k: nat, id: nat, initiator: bool)
    requires Inv(s) && ListenersThere(s) && Lives(s, k, id) && x in s.streams && p.containsTcp && IdOf(p) == x
    ensures var t := Handle(advance, s, x, p, now, purgeNow);
      var d := DirOf(s.streams[id], initiator);
      if Comes(p, id, s.streams[id].localPort, initiator)
      then var r := Taken(advance, d, p);
        Effect(s, t, k, id, initiator, Counted(r.dir, p), Joined(r.data)) && (!r.ok ==> Ended(t.heard[k]))
      else Effect(s, t, k, id, initiator, d, [])
  {
    hide Inv, Extends, TakePayload, TakeFlags, PurgeOld, BytesFrom, CloseStream, Live, Ended, Reassembled, Effect;
    SmallOf(s, x);
    var st := s.streams[x].(lastActivity := now);
    var s1 := PutStream(s, x, st);
    PutKeeps(s, x, st);
    var r := TakePayload(advance, s1, x, p);
    PayloadKeeps(advance, s1, x, p);
    PayloadKeepsPorts(advance, s1, x, p, id);
    PayloadEffect(advance, s1, p, x, k, id, initiator);
    var comes := Comes(p, id, s.streams[id].localPort, initiator);
    var d := DirOf(s.streams[id], initiator);
    var taken := if comes then Taken(advance, d, p) else Result(d, [], true);
    var data := Joined(taken.data);
    SameBefore(s, s1, r.0, k, id, initiator, taken.dir, data);
    DirAfter(s, r.0, k, id, initiator, taken.dir, data);
    if !r.1 {
      CloseEffect(r.0, k, id, x, initiator);
      EffectThen(s, r.0, CloseStream(r.0, x), k, id, initiator, taken.dir, taken.dir, data);
      if x == id { EffectOfEnded(s, CloseStream(r.0, x), k, id, initiator, taken.dir, data); }
    } else {
      var s2 := TakeFlags(r.0, x, p);
      FlagsKeep(r.0, x, p);
      FlagsEffect(r.0, p, x, k, id, initiator);
      var e := if comes then Counted(taken.dir, p) else taken.dir;
      EffectThen(s, r.0, s2, k, id, initiator, taken.dir, e, data);
      PurgeOldKeeps(s2, purgeNow);
      if Lives(s2, k, id) {
        PurgeOldStaysOrCloses(s2, purgeNow, k, id);
        LiveIsOpen(s2, k, id);
        EffectThenStays(s, s2, PurgeOld(s2, purgeNow), k, id, initiator, e, data);
      } else {
        EndedStays(s, s2, PurgeOld(s2, purgeNow), k, id, initiator, e, data);
      }
    }
  }

  /** Exactly what one packet makes a listener hear of either side of its connection, and how that
    * side goes on unless the connection was closed. */
  lemma PacketEffect(advance: bool, s: State, p: Packet, now: nat, purgeNow: nat, k: nat, id: nat, initiator: bool)
    requires Inv(s) && Lives(s, k, id)
    ensures ListenersThere(s)
    ensures var t := OnPacket(advance, s, p, now, purgeNow);
      var r := SideAfter(advance, DirOf(s.streams[id], initiator), p, id, s.streams[id].localPort, initiator);
      && Effect(s, t, k, id, initiator, r.dir, if Collides(p, id) then [] else Joined(r.data))
      && (!r.ok || Collides(p, id) ==> Ended(t.heard[k]))
  {
    hide Inv, Handle, BytesFrom, CloseStream, Live, Ended, Reassembled, Effect;
    InvHasListeners(s);
    var x := IdOf(p);
    NothingHeard(s, k, id, initiator);
    if p.containsTcp {
      if p.syn && !p.ack {
        if x in s.streams {
          var c := s.(numIDCollision := (s.numIDCollision + 1) % UINT32);
          CountersOnly(s, c);
          CloseEffect(c, k, id, x, initiator);
          SameBefore(s, c, CloseStream(c, x), k, id, initiator, DirOf(s.streams[id], initiator), []);
          if x == id { EffectOfEnded(s, CloseStream(c, x), k, id, initiator, DirOf(s.streams[id], initiator), []); }
        } else {
          var c := Accept(s, x, p);
          AcceptKeeps(s, x, p);
          HandleEffect(advance, c, x, p, now, purgeNow, k, id, initiator);
          SameHeard(s, c, Handle(advance, c, x, p, now, purgeNow), k, id, initiator, DirOf(s.streams[id], initiator), []);
        }
      } else if x in s.streams {
        if p.syn {
          var st1 := Renumbered(s, x, p);
          SmallOf(s, x);
          PutKeeps(s, x, st1);
          var c := PutStream(s, x, st1);
          HandleEffect(advance, c, x, p, now, purgeNow, k, id, initiator);
          var r := SideAfter(advance, DirOf(s.streams[id], initiator), p, id, s.streams[id].localPort, initiator);
          SameBefore(s, c, Handle(advance, c, x, p, now, purgeNow), k, id, initiator, r.dir, Joined(r.data));
        } else {
          HandleEffect(advance, s, x, p, now, purgeNow, k, id, initiator);
        }
      } else {
        IgnoredEffect(s, s.(numPacketsIgnored := (s.numPacketsIgnored + 1) % UINT32), k, id, initiator);
      }
    }
  }

  /** Payload that is expected is heard at once, and maybe more behind it. */
  lemma NextIsHeard(advance: bool, s: State, p: Packet, now: nat, purgeNow: nat, k: nat, id: nat, initiator: bool)
    requires Inv(s) && Lives(s, k, id) && Comes(p, id, s.streams[id].localPort, initiator) && !p.syn
    requires p.payload != [] && p.seqNumber == DirOf(s.streams[id], initiator).next
    ensures ListenersThere(s)
    ensures var t := OnPacket(advance, s, p, now, purgeNow);
      k < |s.heard| && k < |t.heard|
      && BytesFrom(initiator, s.heard[k]) + p.payload <= BytesFrom(initiator, t.heard[k])
  {
    hide Inv, OnPacket, BytesFrom, Ended, Drain;
    PacketEffect(advance, s, p, now, purgeNow, k, id, initiator);
    var d := DirOf(s.streams[id], initiator);
    var rest := Drain(advance, d.(next := (d.next + |p.payload|) % UINT32)).data;
    JoinedFirst(BytesFrom(initiator, s.heard[k]), p.payload, rest);
  }

  lemma NothingHeard(s: State, k: nat, id: nat, initiator: bool)
    requires ListenersThere(s) && Lives(s, k, id)
    ensures Effect(s, s, k, id, initiator, DirOf(s.streams[id], initiator), [])
  {
    hide BytesFrom;
    assert BytesFrom(initiator, s.heard[k]) + [] == BytesFrom(initiator, s.heard[k]);
  }

  lemma IgnoredEffect(s: State, t: State, k: nat, id: nat, initiator: bool)
    requires ListenersThere(s) && Lives(s, k, id) && t.streams == s.streams && t.heard == s.heard
    ensures Effect(s, t, k, id, initiator, DirOf(s.streams[id], initiator), [])
  {
    NothingHeard(s, k, id, initiator);
    hide BytesFrom;
  }

  lemma SameHeard(s: State, c: State, t: State, k: nat, id: nat, initiator: bool, d: Dir, data: seq<byte>)
    requires Lives(s, k, id) && Lives(c, k, id) && k < |s.heard| <= |c.heard| && c.heard[k] == s.heard[k]
    requires c.streams[id] == s.streams[id] && Effect(c, t, k, id, initiator, d, data)
    ensures Effect(s, t, k, id, initiator, d, data)
  {
    hide BytesFrom, Ended;
  }

  // ---- runs ----

  /** The segments that come from that side of the connection behind its SYN. */
  function SegmentsOf(arrivals: seq<Arrival>, id: nat, port: nat, initiator: bool): seq<Segment> {
    if arrivals == [] then []
    else
      var p := arrivals[0].packet;
      (if IsSegment(p, id, port, initiator) then [Segment(p.seqNumber, p.payload)] else [])
      + SegmentsOf(arrivals[1..], id, port, initiator)
  }

  predicate IsSegment(p: Packet, id: nat, port: nat, initiator: bool) {
    Comes(p, id, port, initiator) && p.payload != [] && !p.syn
  }

  /** The SYN-ACKs of the connection leave that side as it is when they come. */
  predicate SynsKeep(advance: bool, d: Dir, arrivals: seq<Arrival>, id: nat, port: nat, initiator: bool)
    decreases |arrivals|
  {
    arrivals == [] ||
    var p := arrivals[0].packet;
    var r := SideAfter(advance, d, p, id, port, initiator);
    && (p.containsTcp && p.syn && p.ack && IdOf(p) == id ==> r == Result(d, [], true))
    && (r.ok && !Collides(p, id) ==> SynsKeep(advance, r.dir, arrivals[1..], id, port, initiator))
  }

  lemma DeadStaysDead(advance: bool, s: State, arrivals: seq<Arrival>, k: nat, id: nat)
    requires Inv(s) && k < |s.heard| && Ended(s.heard[k])
    ensures ListenersThere(s) && !Lives(RunAll(advance, s, arrivals), k, id)
  {
    hide Live, RunAll, Counting;
    RunKeeps(advance, s, arrivals);
    var t := RunAll(advance, s, arrivals);
    if Lives(t, k, id) { LiveIsOpen(t, k, id); }
  }

  /** The connection is there until the last of the packets comes, which may close it. */
  ghost predicate LivesUntilLast(advance: bool, s: State, arrivals: seq<Arrival>, k: nat, id: nat)
    requires ListenersThere(s)
  {
    Lives(s, k, id) && (arrivals == [] || Lives(RunAll(advance, s, arrivals[..|arrivals| - 1]), k, id))
  }

  lemma LivesOn(advance: bool, s: State, arrivals: seq<Arrival>, k: nat, id: nat)
    requires Inv(s) && ListenersThere(s) && LivesUntilLast(advance, s, arrivals, k, id) && |arrivals| > 1
    ensures var a := arrivals[0];
      var t := OnPacket(advance, s, a.packet, a.now, a.purgeNow);
      Inv(t) && LivesUntilLast(advance, t, arrivals[1..], k, id)
  {
    hide OnPacket, Inv, Ended;
    var a, n := arrivals[0], |arrivals| - 1;
    var t := OnPacket(advance, s, a.packet, a.now, a.purgeNow);
    PacketKeeps(advance, s, a.packet, a.now, a.purgeNow);
    PacketEffect(advance, s, a.packet, a.now, a.purgeNow, k, id, true);
    assert arrivals[..n][0] == a && arrivals[..n][1..] == arrivals[1..][..n - 1];
    if Ended(t.heard[k]) { DeadStaysDead(advance, t, arrivals[1..][..n - 1], k, id); }
  }

  /** What that side alone makes of its segments. */
  function Alone(advance: bool, s: State, arrivals: seq<Arrival>, id: nat, initiator: bool): Result
    requires id in s.streams
  {
    ReAssembleAll(advance, DirOf(s.streams[id], initiator), SegmentsOf(arrivals, id, s.streams[id].localPort, initiator))
  }

  /** As long as a connection lives, what its listener hears from a side is what that side alone
    * makes of its segments, whatever else arrives. */
  lemma {:induction false} RunIsReassembly(advance: bool, s: State, arrivals: seq<Arrival>, k: nat, id: nat, initiator: bool)
    requires Inv(s) && ListenersThere(s) && LivesUntilLast(advance, s, arrivals, k, id)
    requires SynsKeep(advance, DirOf(s.streams[id], initiator), arrivals, id, s.streams[id].localPort, initiator)
    ensures k < |s.heard| && k < |RunAll(advance, s, arrivals).heard|
    ensures var t, r := RunAll(advance, s, arrivals), Alone(advance, s, arrivals, id, initiator);
      && BytesFrom(initiator, t.heard[k]) == BytesFrom(initiator, s.heard[k]) + Joined(r.data)
      && (Lives(t, k, id) ==> r.ok && DirOf(t.streams[id], initiator) == r.dir)
    decreases |arrivals|
  {
    hide Inv, OnPacket, BytesFrom, Ended, Reassembled, Effect, SideAfter, SynsKeep, SegmentsOf, Joined;
    var d, port := DirOf(s.streams[id], initiator), s.streams[id].localPort;
    if arrivals == [] {
      NoSegments(advance, d, id, port, initiator);
      assert BytesFrom(initiator, s.heard[k]) + [] == BytesFrom(initiator, s.heard[k]);
    } else {
      var a, rest := arrivals[0], arrivals[1..];
      var p := a.packet;
      var s1 := OnPacket(advance, s, p, a.now, a.purgeNow);
      var r := SideAfter(advance, d, p, id, port, initiator);
      PacketKeeps(advance, s, p, a.now, a.purgeNow);
      PacketEffect(advance, s, p, a.now, a.purgeNow, k, id, initiator);
      EffectMeans(s, s1, k, id, initiator, r.dir, if Collides(p, id) then [] else Joined(r.data));
      if rest == [] {
        assert RunAll(advance, s1, rest) == s1;
        OnlySegment(advance, arrivals, d, id, port, initiator);
      } else {
        LivesOn(advance, s, arrivals, k, id);
        FirstSegment(advance, arrivals, d, id, port, initiator);
        RunIsReassembly(advance, s1, rest, k, id, initiator);
      }
    }
  }

  lemma NoSegments(advance: bool, d: Dir, id: nat, port: nat, initiator: bool)
    ensures ReAssembleAll(advance, d, SegmentsOf([], id, port, initiator)) == Result(d, [], true) && Joined([]) == []
  {
  }

  /** What the effect of a packet says of a connection that goes on. */
  lemma EffectMeans(s: State, t: State, k: nat, id: nat, initiator: bool, d: Dir, data: seq<byte>)
    requires Inv(t) && ListenersThere(t) && Effect(s, t, k, id, initiator, d, data)
    ensures k < |s.heard| && k < |t.heard| && BytesFrom(initiator, t.heard[k]) == BytesFrom(initiator, s.heard[k]) + data
    ensures Lives(s, k, id)
    ensures Lives(t, k, id) ==>
      !Ended(t.heard[k]) && DirOf(t.streams[id], initiator) == d && t.streams[id].localPort == s.streams[id].localPort
  {
    hide Inv, BytesFrom, Ended;
    if Lives(t, k, id) { LiveIsOpen(t, k, id); }
  }

  /** The first packet, then the others. */
  lemma {:induction false} FirstSegment(advance: bool, arrivals: seq<Arrival>, d: Dir, id: nat, port: nat, initiator: bool)
    requires arrivals != [] && SynsKeep(advance, d, arrivals, id, port, initiator) && !Collides(arrivals[0].packet, id)
    requires SideAfter(advance, d, arrivals[0].packet, id, port, initiator).ok
    ensures var r := SideAfter(advance, d, arrivals[0].packet, id, port, initiator);
      var q := ReAssembleAll(advance, r.dir, SegmentsOf(arrivals[1..], id, port, initiator));
      var w := ReAssembleAll(advance, d, SegmentsOf(arrivals, id, port, initiator));
      && w.ok == q.ok && w.dir == q.dir && Joined(w.data) == Joined(r.data) + Joined(q.data)
      && SynsKeep(advance, r.dir, arrivals[1..], id, port, initiator)
  {
    var p := arrivals[0].packet;
    var rest := SegmentsOf(arrivals[1..], id, port, initiator);
    var r := SideAfter(advance, d, p, id, port, initiator);
    SegmentsUnfold(arrivals, id, port, initiator);
    if IsSegment(p, id, port, initiator) {
      var x := Segment(p.seqNumber, p.payload);
      AllUnfold(advance, d, x, rest);
      hide *;
      JoinedConcat(r.data, ReAssembleAll(advance, r.dir, rest).data);
    } else {
      assert r == Result(d, [], true) && Joined(r.data) == [];
      hide *;
    }
  }

  /** A last packet, which may close the connection. */
  lemma OnlySegment(advance: bool, arrivals: seq<Arrival>, d: Dir, id: nat, port: nat, initiator: bool)
    requires |arrivals| == 1 && SynsKeep(advance, d, arrivals, id, port, initiator)
    ensures var r, p := SideAfter(advance, d, arrivals[0].packet, id, port, initiator), arrivals[0].packet;
      var w := ReAssembleAll(advance, d, SegmentsOf(arrivals, id, port, initiator));
      && Joined(w.data) == (if Collides(p, id) then [] else Joined(r.data))
      && (r.ok && !Collides(p, id) ==> w.ok && w.dir == r.dir)
  {
    var p := arrivals[0].packet;
    var r := SideAfter(advance, d, p, id, port, initiator);
    SegmentsUnfold(arrivals, id, port, initiator);
    assert SegmentsOf(arrivals[1..], id, port, initiator) == [] && Joined([]) == [];
    if IsSegment(p, id, port, initiator) {
      AllUnfold(advance, d, Segment(p.seqNumber, p.payload), []);
      hide *;
      assert ReAssembleAll(advance, r.dir, []) == Result(r.dir, [], true) by { NothingLeft(advance, r.dir); }
      assert r.data + [] == r.data;
    } else {
      NothingLeft(advance, d);
      hide *;
    }
  }

  lemma NothingLeft(advance: bool, d: Dir)
    ensures ReAssembleAll(advance, d, []) == Result(d, [], true)
  {
  }

  lemma SegmentsUnfold(arrivals: seq<Arrival>, id: nat, port: nat, initiator: bool)
    requires arrivals != []
    ensures var p, rest := arrivals[0].packet, SegmentsOf(arrivals[1..], id, port, initiator);
      SegmentsOf(arrivals, id, port, initiator)
      == if IsSegment(p, id, port, initiator) then [Segment(p.seqNumber, p.payload)] + rest else rest
  {
    var rest := SegmentsOf(arrivals[1..], id, port, initiator);
    assert [] + rest == rest;
  }

  lemma AllUnfold(advance: bool, d: Dir, x: Segment, rest: seq<Segment>)
    ensures var r := Reassembled(advance, d, x.seqNumber, x.data);
      ReAssembleAll(advance, d, [x] + rest)
      == if !r.ok then r
         else var q := ReAssembleAll(advance, r.dir, rest); Result(q.dir, r.data + q.data, q.ok)
  {
    hide Reassembled;
    assert ([x] + rest)[0] == x && ([x] + rest)[1..] == rest;
  }

  // ---- what closes a connection ----

  /** The payload comes too early and the buffer for such payload is full. */
  predicate Overflows(st: Stream, p: Packet) {
    var d := DirOf(st, p.dstPort == st.localPort);
    p.payload != [] && d.next < p.seqNumber && |d.buffer| >= TCP_SEQ_BUFFER_SIZE
  }

  /** The stream that the payload of a packet is for, if the connection is there. */
  function StreamFor(s: State, p: Packet): Stream
    requires IdOf(p) in s.streams
  {
    if p.syn then Renumbered(s, IdOf(p), p) else s.streams[IdOf(p)]
  }

  /** The packet belongs to a connection, or begins one. */
  predicate Handled(s: State, p: Packet) {
    p.containsTcp && (if p.syn && !p.ack then IdOf(p) !in s.streams else IdOf(p) in s.streams)
  }

  predicate OwnEnd(st: Stream, p: Packet) {
    p.rst || (p.fin && st.numFin == 1)
  }

  /** Every 64th packet handled to its end looks for connections that were inactive for too long. */
  predicate Purges(s: State, p: Packet) {
    && Handled(s, p) && (s.purgeCnt + 1) % UINT32 >= PURGE_EVERY
    && !(IdOf(p) in s.streams && Overflows(StreamFor(s, p), p))
  }

  /** A packet closes a connection by a SYN for its id, a reset, a second FIN, too much payload out of
    * order, or because it was inactive for too long. */
  predicate Closes(s: State, p: Packet, now: nat, purgeNow: nat, id: nat)
    requires id in s.streams
  {
    var st := s.streams[id];
    || Collides(p, id)
    || (p.containsTcp && IdOf(p) == id && (Overflows(StreamFor(s, p), p) || OwnEnd(st, p)))
    || (Purges(s, p) && TimedOut(if IdOf(p) == id then st.(lastActivity := now) else st, purgeNow))
  }

  /** Streams that differ in their numbers and buffers at most. */
  predicate SameOwner(a: Stream, b: Stream) {
    a.lastActivity == b.lastActivity && a.numFin == b.numFin && a.listener == b.listener
  }

  lemma OverflowExactly(advance: bool, s: State, x: nat, p: Packet)
    requires ListenersThere(s) && x in s.streams
    ensures var r := TakePayload(advance, s, x, p);
      && (r.1 <==> !Overflows(s.streams[x], p))
      && r.0.purgeCnt == s.purgeCnt && r.0.streams.Keys == s.streams.Keys
      && forall id | id in s.streams :: SameOwner(r.0.streams[id], s.streams[id])
  {
    hide Drain, Wrap;
  }

  lemma FlagsClose(s: State, x: nat, p: Packet, k: nat, id: nat)
    requires Inv(s) && ListenersThere(s) && x in s.streams && Lives(s, k, id)
    ensures var t := TakeFlags(s, x, p);
      && (Lives(t, k, id) <==> !(x == id && OwnEnd(s.streams[id], p)))
      && (Lives(t, k, id) ==> t.streams[id].lastActivity == s.streams[id].lastActivity)
      && t.purgeCnt == s.purgeCnt
  {
    SmallOf(s, x);
    hide Live, Ended, Counting;
  }

  lemma PurgeCloses(s: State, now: nat, k: nat, id: nat)
    requires ListenersThere(s) && Lives(s, k, id)
    ensures Lives(PurgeOld(s, now), k, id) <==> !((s.purgeCnt + 1) % UINT32 >= PURGE_EVERY && TimedOut(s.streams[id], now))
  {
    hide PurgeAll, TimedOut;
    PurgeLeaves(s.(purgeCnt := 0), s.streams.Keys, now);
  }

  lemma HandleCloses(advance: bool, s: State, x: nat, p: Packet, now: nat, purgeNow: nat, k: nat, id: nat)
    requires Inv(s) && ListenersThere(s) && x in s.streams && Lives(s, k, id)
    ensures var st := s.streams[id];
      Lives(Handle(advance, s, x, p, now, purgeNow), k, id)
      <==> !(|| (x == id && (Overflows(st, p) || OwnEnd(st, p)))
             || (!Overflows(s.streams[x], p) && (s.purgeCnt + 1) % UINT32 >= PURGE_EVERY
                 && TimedOut(if x == id then st.(lastActivity := now) else st, purgeNow)))
  {
    hide Inv, TakePayload, TakeFlags, PurgeOld, TimedOut;
    SmallOf(s, x);
    var st1 := s.streams[x].(lastActivity := now);
    PutKeeps(s, x, st1);
    var s1 := PutStream(s, x, st1);
    var r := TakePayload(advance, s1, x, p);
    OverflowExactly(advance, s1, x, p);
    PayloadKeeps(advance, s1, x, p);
    if r.1 {
      var s2 := TakeFlags(r.0, x, p);
      FlagsKeep(r.0, x, p);
      FlagsClose(r.0, x, p, k, id);
      if Lives(s2, k, id) {
        PurgeCloses(s2, purgeNow, k, id);
        SameTimes(s2.streams[id], if x == id then s.streams[id].(lastActivity := now) else s.streams[id], purgeNow);
      } else {
        PurgeOldKeeps(s2, purgeNow);
        GoneStaysGone(s2, purgeNow, k, id);
      }
    }
  }

  lemma SameTimes(a: Stream, b: Stream, now: nat)
    requires a.lastActivity == b.lastActivity
    ensures TimedOut(a, now) == TimedOut(b, now)
  {
  }

  lemma GoneStaysGone(s: State, now: nat, k: nat, id: nat)
    requires ListenersThere(s) && !Lives(s, k, id)
    ensures !Lives(PurgeOld(s, now), k, id)
  {
    hide PurgeAll, TimedOut;
    PurgeLeaves(s.(purgeCnt := 0), s.streams.Keys, now);
  }

  /** Exactly these packets close a connection, and then its listener is told. */
  lemma ClosesExactly(advance: bool, s: State, p: Packet, now: nat, purgeNow: nat, k: nat, id: nat)
    requires Inv(s) && Lives(s, k, id)
    ensures ListenersThere(s)
    ensures var t := OnPacket(advance, s, p, now, purgeNow);
      && (Lives(t, k, id) <==> !Closes(s, p, now, purgeNow, id))
      && k < |t.heard| && (Ended(t.heard[k]) <==> Closes(s, p, now, purgeNow, id))
  {
    hide Inv, OnPacket, TimedOut, BytesFrom, Ended, Reassembled, Effect, SideAfter, Purges, Overflows;
    InvHasListeners(s);
    var t := OnPacket(advance, s, p, now, purgeNow);
    PacketKeeps(advance, s, p, now, purgeNow);
    PacketEffect(advance, s, p, now, purgeNow, k, id, true);
    EndsOrLives(s, t, k, id);
    if Handled(s, p) {
      HandledCloses(advance, s, p, now, purgeNow, k, id);
    } else {
      NotHandled(advance, s, p, now, purgeNow, k, id);
    }
  }

  lemma EndsOrLives(s: State, t: State, k: nat, id: nat)
    requires Inv(t) && ListenersThere(t) && exists d, data :: Effect(s, t, k, id, true, d, data)
    ensures k < |t.heard| && (Lives(t, k, id) <==> !Ended(t.heard[k]))
  {
    hide BytesFrom, Ended, Inv;
    if Lives(t, k, id) { LiveIsOpen(t, k, id); }
  }

  lemma NotHandled(advance: bool, s: State, p: Packet, now: nat, purgeNow: nat, k: nat, id: nat)
    requires Inv(s) && ListenersThere(s) && Lives(s, k, id) && !Handled(s, p)
    ensures Lives(OnPacket(advance, s, p, now, purgeNow), k, id) <==> !Closes(s, p, now, purgeNow, id)
  {
    hide Inv, TimedOut, Handle, Overflows;
  }

  lemma HandledCloses(advance: bool, s: State, p: Packet, now: nat, purgeNow: nat, k: nat, id: nat)
    requires Inv(s) && ListenersThere(s) && Lives(s, k, id) && Handled(s, p)
    ensures Lives(OnPacket(advance, s, p, now, purgeNow), k, id) <==> !Closes(s, p, now, purgeNow, id)
  {
    hide Inv, Handle, TimedOut;
    var x := IdOf(p);
    if x !in s.streams {
      AcceptKeeps(s, x, p);
      HandleCloses(advance, Accept(s, x, p), x, p, now, purgeNow, k, id);
    } else if p.syn {
      var st1 := Renumbered(s, x, p);
      SmallOf(s, x);
      PutKeeps(s, x, st1);
      HandleCloses(advance, PutStream(s, x, st1), x, p, now, purgeNow, k, id);
      SameTimes(if x == id then Renumbered(s, id, p).(lastActivity := now) else s.streams[id],
        if x == id then s.streams[id].(lastActivity := now) else s.streams[id], purgeNow);
    } else {
      HandleCloses(advance, s, x, p, now, purgeNow, k, id);
    }
  }

  // ---- when everything arrives ----

  /** The connection has begun for that side: it expects `base`, and of what came with the SYN the
    * listener heard `first`. */
  ghost predicate Begun(s: State, k: nat, id: nat, initiator: bool, base: nat, first: seq<byte>) {
    && k < |s.heard| && Lives(s, k, id)
    && DirOf(s.streams[id], initiator) == Dir(base, []) && BytesFrom(initiator, s.heard[k]) == first
  }

  /** Of a side whose pieces all arrive, and of nothing else. */
  ghost predicate AllArrive(s: State, arrivals: seq<Arrival>, id: nat, initiator: bool, sent: ByteStream, pieces: seq<seq<byte>>)
    requires id in s.streams
  {
    var xs := SegmentsOf(arrivals, id, s.streams[id].localPort, initiator);
    && Cut(sent, pieces) && (forall x | x in xs :: IsPiece(sent, pieces, x))
    && forall i | 0 <= i < |pieces| :: PieceAt(sent, pieces, i) in xs
  }

  /** A run of packets behind the SYN of a side, in which all its pieces arrive before the connection
    * is closed, or with the packet that closes it. */
  ghost predicate Session(advance: bool, s: State, arrivals: seq<Arrival>, k: nat, id: nat, initiator: bool,
      sent: ByteStream, pieces: seq<seq<byte>>, first: seq<byte>)
    requires ListenersThere(s)
  {
    && Inv(s) && Begun(s, k, id, initiator, sent.base, first) && LivesUntilLast(advance, s, arrivals, k, id)
    && SynsKeep(advance, DirOf(s.streams[id], initiator), arrivals, id, s.streams[id].localPort, initiator)
    && AllArrive(s, arrivals, id, initiator, sent, pieces)
  }

  /** With the advance the listener of the connection hears all of it, in whatever order it comes,
    * unless the last packet overflows the buffer. */
  lemma SessionComplete(s: State, arrivals: seq<Arrival>, k: nat, id: nat, initiator: bool,
      sent: ByteStream, pieces: seq<seq<byte>>, first: seq<byte>)
    requires ListenersThere(s) && Session(true, s, arrivals, k, id, initiator, sent, pieces, first)
    ensures var t := RunAll(true, s, arrivals);
      && (Lives(t, k, id) ==> Alone(true, s, arrivals, id, initiator).ok)
      && k < |t.heard| && (Alone(true, s, arrivals, id, initiator).ok ==> BytesFrom(initiator, t.heard[k]) == first + sent.bytes)
  {
    hide Inv, RunAll, BytesFrom, ReAssembleAll, SegmentsOf, SynsKeep, LivesUntilLast, IsPiece;
    RunIsReassembly(true, s, arrivals, k, id, initiator);
    CompleteDelivery(sent, pieces, SegmentsOf(arrivals, id, s.streams[id].localPort, initiator));
  }

  /** As written it hears all of it exactly if the pieces arrive for the first time in order, or all
    * but the last do and that comes once, too early; for pieces that differ from their neighbours. */
  lemma SessionExactly(s: State, arrivals: seq<Arrival>, k: nat, id: nat, initiator: bool,
      sent: ByteStream, pieces: seq<seq<byte>>, first: seq<byte>)
    requires ListenersThere(s) && Session(false, s, arrivals, k, id, initiator, sent, pieces, first) && Distinct(pieces)
    ensures var t, xs := RunAll(false, s, arrivals), SegmentsOf(arrivals, id, s.streams[id].localPort, initiator);
      k < |t.heard|
      && (BytesFrom(initiator, t.heard[k]) == first + sent.bytes
          <==> FirstsInOrder(sent, pieces, 0, xs) || LastComesEarly(sent, pieces, xs))
  {
    hide Inv, RunAll, BytesFrom, ReAssembleAll, SegmentsOf, SynsKeep, LivesUntilLast, IsPiece, Distinct, LastComesEarly;
    RunIsReassembly(false, s, arrivals, k, id, initiator);
    DeliveredExactly(sent, pieces, SegmentsOf(arrivals, id, s.streams[id].localPort, initiator));
    SameBehind(first, Joined(Alone(false, s, arrivals, id, initiator).data), sent.bytes);
  }

  /** And whatever the pieces are, if they arrive so. */
  lemma SessionGiven(s: State, arrivals: seq<Arrival>, k: nat, id: nat, initiator: bool,
      sent: ByteStream, pieces: seq<seq<byte>>, first: seq<byte>)
    requires ListenersThere(s) && Session(false, s, arrivals, k, id, initiator, sent, pieces, first)
    requires var xs := SegmentsOf(arrivals, id, s.streams[id].localPort, initiator);
      FirstsInOrder(sent, pieces, 0, xs) || LastComesEarly(sent, pieces, xs)
    ensures var t := RunAll(false, s, arrivals); k < |t.heard| && BytesFrom(initiator, t.heard[k]) == first + sent.bytes
  {
    hide Inv, RunAll, BytesFrom, ReAssembleAll, SegmentsOf, SynsKeep, LivesUntilLast, IsPiece, LastComesEarly;
    RunIsReassembly(false, s, arrivals, k, id, initiator);
    WholeStreamGiven(sent, pieces, SegmentsOf(arrivals, id, s.streams[id].localPort, initiator));
  }

  lemma SameBehind(a: seq<byte>, b: seq<byte>, c: seq<byte>)
    ensures a + b == a + c <==> b == c
  {
    if a + b == a + c {
      assert (a + b)[|a|..] == b && (a + c)[|a|..] == c;
    }
  }

  // ---- how a connection begins ----

  /** A SYN for an id that is free begins a connection, unless the same packet ends it: the number
    * behind it is expected from the initiator, and nothing was heard from the other side. */
  lemma SynBegins(advance: bool, s: State, p: Packet, now: nat, purgeNow: nat)
    requires Inv(s) && p.containsTcp && p.syn && !p.ack && IdOf(p) !in s.streams && p.seqNumber + |p.payload| + 1 < UINT32
    ensures ListenersThere(s)
    ensures var t, k, id := OnPacket(advance, s, p, now, purgeNow), |s.heard|, IdOf(p);
      Lives(t, k, id) ==>
        && Begun(t, k, id, true, p.seqNumber + |p.payload| + 1, p.payload)
        && Begun(t, k, id, false, 0, []) && t.streams[id].localPort == p.dstPort
  {
    hide Inv, Handle, Reassembled, Effect;
    InvHasListeners(s);
    var id, k := IdOf(p), |s.heard|;
    var c, t := Accept(s, id, p), OnPacket(advance, s, p, now, purgeNow);
    AcceptKeeps(s, id, p);
    PacketKeeps(advance, s, p, now, purgeNow);
    HandleEffect(advance, c, id, p, now, purgeNow, k, id, true);
    HandleEffect(advance, c, id, p, now, purgeNow, k, id, false);
    OnlyOpened(c, k);
    FirstTaken(advance, p);
    if Lives(t, k, id) {
      var r := Taken(advance, Dir(p.seqNumber, []), p);
      EffectBegins(c, t, k, id, true, Counted(r.dir, p), Joined(r.data));
      EffectBegins(c, t, k, id, false, Dir(0, []), []);
    }
  }

  /** The SYN-ACK of a side from which nothing was heard yet: the number behind it is expected. */
  lemma SynAckBegins(advance: bool, s: State, p: Packet, now: nat, purgeNow: nat, k: nat, id: nat, base: nat)
    requires Inv(s) && Begun(s, k, id, false, base, []) && p.syn && p.ack && Comes(p, id, s.streams[id].localPort, false)
    requires p.seqNumber + |p.payload| + 1 < UINT32
    ensures ListenersThere(s)
    ensures var t := OnPacket(advance, s, p, now, purgeNow);
      Lives(t, k, id) ==> Begun(t, k, id, false, p.seqNumber + |p.payload| + 1, p.payload)
  {
    hide Inv, OnPacket, Reassembled, Effect, BytesFrom;
    InvHasListeners(s);
    var t := OnPacket(advance, s, p, now, purgeNow);
    PacketKeeps(advance, s, p, now, purgeNow);
    PacketEffect(advance, s, p, now, purgeNow, k, id, false);
    FirstTaken(advance, p);
    if Lives(t, k, id) {
      var r := Taken(advance, Dir(p.seqNumber, []), p);
      EffectBegins(s, t, k, id, false, Counted(r.dir, p), Joined(r.data));
    }
  }

  lemma OnlyOpened(s: State, k: nat)
    requires k < |s.heard| && s.heard[k] == [Open]
    ensures BytesFrom(true, s.heard[k]) == [] && BytesFrom(false, s.heard[k]) == []
  {
    var one := [Open];
    assert one[1..] == [];
  }

  lemma FirstTaken(advance: bool, p: Packet)
    requires p.syn && p.seqNumber + |p.payload| + 1 < UINT32
    ensures var r := Taken(advance, Dir(p.seqNumber, []), p);
      Counted(r.dir, p) == Dir(p.seqNumber + |p.payload| + 1, []) && Joined(r.data) == p.payload
  {
    hide Reassembled;
    if p.payload != [] {
      FirstReassembled(advance, p.seqNumber, p.payload);
      JoinedOne(p.payload);
    }
  }

  lemma EffectBegins(s: State, t: State, k: nat, id: nat, initiator: bool, d: Dir, data: seq<byte>)
    requires Inv(t) && ListenersThere(t) && Lives(t, k, id) && Effect(s, t, k, id, initiator, d, data) && d.buffer == []
    requires BytesFrom(initiator, s.heard[k]) == []
    ensures Begun(t, k, id, initiator, d.next, data) && t.streams[id].localPort == s.streams[id].localPort
  {
    DirAfter(s, t, k, id, initiator, d, data);
    hide BytesFrom, Inv, Ended;
    assert [] + data == data;
  }
}
