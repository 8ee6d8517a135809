/** All TCP connections: one packet at a time, and what every run keeps. */
module TcpConnections {
  import opened Bytes
  import opened TcpDirection

  const TCP_DEF_TIMEOUT := 1000 * 60 * 5
  const PURGE_EVERY := 64

  /** The calls a stream listener gets. */
  datatype Event = Open | FromInitiator(data: seq<byte>) | ToInitiator(data: seq<byte>) | Close

  datatype Packet = Packet(containsTcp: bool, srcIP: nat, dstIP: nat, srcPort: nat, dstPort: nat, seqNumber: nat,
                           syn: bool, ack: bool, fin: bool, rst: bool, payload: seq<byte>)

  /** The same for both directions of a connection. */
  function IdOf(p: Packet): nat {
    (p.dstIP + p.srcIP) * 0x100_0000 + (p.srcPort + p.dstPort)
  }

  predicate Sized(p: Packet) {
    p.srcIP < UINT32 && p.dstIP < UINT32 && p.srcPort < 0x1_0000 && p.dstPort < 0x1_0000 && p.seqNumber < UINT32
  }

  /** Two packets share an id exactly when the sums of their addresses and of their ports agree:
    * always for the two directions of a connection, sometimes for strangers. */
  lemma SameIdExactly(p: Packet, q: Packet)
    requires Sized(p) && Sized(q)
    ensures IdOf(p) < UINT64
    ensures IdOf(p) == IdOf(q) <==> p.srcIP + p.dstIP == q.srcIP + q.dstIP && p.srcPort + p.dstPort == q.srcPort + q.dstPort
  {
  }

  /** One connection; `listener` tells which of the listeners it reports to. */
  datatype Stream = Stream(fromInitiator: Dir, toInitiator: Dir, localPort: nat, listener: nat,
                           lastActivity: nat, numFin: nat)

  /** `heard` holds the calls made to each listener there ever was. */
  datatype State = State(streams: map<nat, Stream>, heard: seq<seq<Event>>, purgeCnt: nat,
                         numConnections: nat, numOpenConnections: nat, numPurgedConnections: nat,
                         numIDCollision: nat, numPacketsIgnored: nat)

  function Initial(): State { State(map[], [], 0, 0, 0, 0, 0, 0) }

  function Tell(s: State, listener: nat, events: seq<Event>): State
    requires listener < |s.heard|
  {
    s.(heard := s.heard[listener := s.heard[listener] + events])
  }

  predicate ListenersThere(s: State) {
    forall id | id in s.streams :: s.streams[id].listener < |s.heard|
  }

  function CloseStream(s: State, id: nat): (t: State)
    requires id in s.streams && ListenersThere(s)
    ensures ListenersThere(t)
  {
    var told := Tell(s, s.streams[id].listener, [Close]);
    told.(streams := s.streams - {id}, numOpenConnections := (s.numOpenConnections - 1) % UINT32)
  }

  // ---- purging ----

  predicate IsLeast(id: nat, ids: set<nat>) {
    id in ids && forall k | k in ids :: id <= k
  }

  lemma {:induction false} LeastExists(ids: set<nat>)
    requires ids != {}
    ensures exists id :: IsLeast(id, ids)
    decreases |ids|
  {
    var x :| x in ids;
    if ids == {x} {
      assert IsLeast(x, ids);
    } else {
      assert |ids - {x}| < |ids|;
      LeastExists(ids - {x});
      var y :| IsLeast(y, ids - {x});
      var least := if x < y then x else y;
      forall k | k in ids ensures least <= k {
        if k != x { assert k in ids - {x}; }
      }
      assert IsLeast(least, ids);
    }
  }

  predicate TimedOut(st: Stream, now: nat) {
    (now - st.lastActivity) % UINT64 > TCP_DEF_TIMEOUT
  }

  /** Looks at the given streams in rising order of their ids and closes those that were
    * inactive for too long. */
  ghost function PurgeAll(s: State, todo: set<nat>, now: nat): (t: State)
    requires ListenersThere(s) && todo <= s.streams.Keys
    ensures ListenersThere(t)
    decreases |todo|
  {
    if todo == {} then s
    else
      LeastExists(todo);
      var id :| IsLeast(id, todo);
      assert |todo - {id}| < |todo|;
      PurgeAll(PurgeOne(s, id, now), todo - {id}, now)
  }

  /** The loop that does this picks the same stream next: the least is unique. */
  lemma PurgeNext(s: State, todo: set<nat>, now: nat, id: nat)
    requires ListenersThere(s) && todo <= s.streams.Keys && IsLeast(id, todo)
    ensures todo - {id} <= PurgeOne(s, id, now).streams.Keys && |todo - {id}| < |todo|
    ensures PurgeAll(s, todo, now) == PurgeAll(PurgeOne(s, id, now), todo - {id}, now)
  {
  }

  function PurgeOne(s: State, id: nat, now: nat): (t: State)
    requires ListenersThere(s) && id in s.streams
    ensures ListenersThere(t) && t.streams.Keys >= s.streams.Keys - {id}
  {
    if TimedOut(s.streams[id], now)
    then CloseStream(s, id).(numPurgedConnections := (s.numPurgedConnections + 1) % UINT32)
    else s
  }

  function Remaining(streams: map<nat, Stream>, todo: set<nat>, now: nat): map<nat, Stream> {
    map id | id in streams && !(id in todo && TimedOut(streams[id], now)) :: streams[id]
  }

  lemma {:induction false} PurgeLeaves(s: State, todo: set<nat>, now: nat)
    requires ListenersThere(s) && todo <= s.streams.Keys
    ensures PurgeAll(s, todo, now).streams == Remaining(s.streams, todo, now)
    decreases |todo|
  {
    hide TimedOut, CloseStream;
    if todo == {} {
      assert PurgeAll(s, todo, now) == s;
    } else {
      LeastExists(todo);
      var x :| IsLeast(x, todo);
      PurgeNext(s, todo, now, x);
      hide PurgeAll;
      OneLeaves(s, x, now);
      PurgeLeaves(PurgeOne(s, x, now), todo - {x}, now);
    }
  }

  lemma OneLeaves(s: State, id: nat, now: nat)
    requires ListenersThere(s) && id in s.streams
    ensures PurgeOne(s, id, now).streams == Remaining(s.streams, {id}, now)
  {
  }

  /** Purging leaves exactly the streams that were active lately. */
  lemma PurgesExactly(s: State, now: nat)
    requires ListenersThere(s)
    ensures PurgeAll(s, s.streams.Keys, now).streams == map id | id in s.streams && !TimedOut(s.streams[id], now) :: s.streams[id]
  {
    PurgeLeaves(s, s.streams.Keys, now);
  }

  /** Only every 64th call does anything. */
  ghost function PurgeOld(s: State, now: nat): (t: State)
    requires ListenersThere(s)
    ensures ListenersThere(t)
  {
    var cnt := (s.purgeCnt + 1) % UINT32;
    if cnt < PURGE_EVERY then s.(purgeCnt := cnt)
    else PurgeAll(s.(purgeCnt := 0), s.streams.Keys, now)
  }

  // ---- one packet ----

  function Wrap(fromInitiator: bool, data: seq<seq<byte>>): (events: seq<Event>)
    ensures |events| == |data|
  {
    if data == [] then []
    else [if fromInitiator then FromInitiator(data[0]) else ToInitiator(data[0])] + Wrap(fromInitiator, data[1..])
  }

  function DirOf(st: Stream, fromInitiator: bool): Dir {
    if fromInitiator then st.fromInitiator else st.toInitiator
  }

  function WithDir(st: Stream, fromInitiator: bool, d: Dir): Stream {
    if fromInitiator then st.(fromInitiator := d) else st.(toInitiator := d)
  }

  /** A new connection. */
  function Accept(s: State, id: nat, p: Packet): (t: State)
    requires ListenersThere(s) && id !in s.streams
    ensures ListenersThere(t) && id in t.streams
  {
    var st := Stream(Dir(p.seqNumber, []), Dir(0, []), p.dstPort, |s.heard|, 0, 0);
    s.(streams := s.streams[id := st], heard := s.heard + [[Open]],
       numConnections := (s.numConnections + 1) % UINT32, numOpenConnections := (s.numOpenConnections + 1) % UINT32)
  }

  function PutStream(s: State, id: nat, st: Stream): (t: State)
    requires ListenersThere(s) && id in s.streams && st.listener == s.streams[id].listener
    ensures ListenersThere(t) && id in t.streams
  {
    s.(streams := s.streams[id := st])
  }

  /** The payload of a packet; the flag says whether the buffer had room. */
  function TakePayload(advance: bool, s: State, id: nat, p: Packet): (r: (State, bool))
    requires ListenersThere(s) && id in s.streams
    ensures ListenersThere(r.0) && id in r.0.streams
  {
    var st := s.streams[id];
    var fromInitiator := p.dstPort == st.localPort;
    if p.payload == [] then (s, true)
    else
      var r := Reassembled(advance, DirOf(st, fromInitiator), p.seqNumber, p.payload);
      (PutStream(Tell(s, st.listener, Wrap(fromInitiator, r.data)), id, WithDir(st, fromInitiator, r.dir)), r.ok)
  }

  /** SYN takes one number, FIN is counted. */
  function Flagged(st: Stream, p: Packet): (r: Stream)
    ensures r.listener == st.listener
  {
    var fromInitiator := p.dstPort == st.localPort;
    var d := DirOf(st, fromInitiator);
    var st1 := if p.syn then WithDir(st, fromInitiator, d.(next := (d.next + 1) % UINT32)) else st;
    if p.fin then st1.(numFin := st1.numFin + 1) else st1
  }

  /** The flags of a packet: the second FIN or a reset ends the connection. */
  function TakeFlags(s: State, id: nat, p: Packet): (t: State)
    requires ListenersThere(s) && id in s.streams
    ensures ListenersThere(t)
  {
    var st := Flagged(s.streams[id], p);
    var t := PutStream(s, id, st);
    if st.numFin == 2 || p.rst then CloseStream(t, id) else t
  }

  ghost function Handle(advance: bool, s: State, id: nat, p: Packet, now: nat, purgeNow: nat): (t: State)
    requires ListenersThere(s) && id in s.streams
    ensures ListenersThere(t)
  {
    var active := PutStream(s, id, s.streams[id].(lastActivity := now));
    var r := TakePayload(advance, active, id, p);
    if !r.1 then CloseStream(r.0, id)
    else PurgeOld(TakeFlags(r.0, id, p), purgeNow)
  }

  ghost function OnPacket(advance: bool, s: State, p: Packet, now: nat, purgeNow: nat): (t: State)
    requires ListenersThere(s)
    ensures ListenersThere(t)
  {
    var id := IdOf(p);
    if !p.containsTcp then s
    else if p.syn && !p.ack then
      if id in s.streams then CloseStream(s.(numIDCollision := (s.numIDCollision + 1) % UINT32), id)
      else Handle(advance, Accept(s, id, p), id, p, now, purgeNow)
    else if id !in s.streams then s.(numPacketsIgnored := (s.numPacketsIgnored + 1) % UINT32)
    else if p.syn then
      var st := s.streams[id];
      Handle(advance, PutStream(s, id, st.(toInitiator := st.toInitiator.(next := p.seqNumber))), id, p, now, purgeNow)
    else Handle(advance, s, id, p, now, purgeNow)
  }

  // ---- what every run keeps ----

  predicate IsData(e: Event) { e.FromInitiator? || e.ToInitiator? }

  /** Opened, then only data. */
  predicate Live(calls: seq<Event>) {
    |calls| > 0 && calls[0].Open? && forall i | 0 < i < |calls| :: IsData(calls[i])
  }

  predicate Ended(calls: seq<Event>) {
    |calls| > 0 && calls[|calls| - 1].Close? && Live(calls[..|calls| - 1])
  }

  function CountEnded(heard: seq<seq<Event>>): (n: nat)
    ensures n <= |heard|
  {
    if heard == [] then 0
    else CountEnded(heard[..|heard| - 1]) + if Ended(heard[|heard| - 1]) then 1 else 0
  }

  lemma {:induction false} CountOneMore(heard: seq<seq<Event>>, i: nat, calls: seq<Event>)
    requires i < |heard| && !Ended(heard[i])
    ensures CountEnded(heard[i := calls]) == CountEnded(heard) + if Ended(calls) then 1 else 0
  {
    var n := |heard| - 1;
    if i == n {
      assert heard[i := calls][..n] == heard[..n];
    } else {
      assert heard[i := calls][..n] == heard[..n][i := calls];
      CountOneMore(heard[..n], i, calls);
    }
  }

  ghost predicate SmallStream(st: Stream) {
    |st.fromInitiator.buffer| <= TCP_SEQ_BUFFER_SIZE && |st.toInitiator.buffer| <= TCP_SEQ_BUFFER_SIZE && st.numFin < 2
  }

  /** Live streams report to different listeners that were opened and not closed, all other
    * listeners were closed, and nothing is buffered without bound. */
  ghost predicate Reporting(s: State) {
    && ListenersThere(s)
    && (forall id | id in s.streams :: Live(s.heard[s.streams[id].listener]) && SmallStream(s.streams[id]))
    && (forall i, j | i in s.streams && j in s.streams && i != j :: s.streams[i].listener != s.streams[j].listener)
    && (forall k | 0 <= k < |s.heard| :: Live(s.heard[k]) || Ended(s.heard[k]))
  }

  /** The open connections are the live streams, all connections are the live and the closed. */
  ghost predicate Counting(s: State) {
    && s.numConnections == |s.heard| % UINT32
    && s.numOpenConnections == |s.streams| % UINT32
    && |s.heard| == |s.streams| + CountEnded(s.heard)
  }

  ghost predicate Inv(s: State) { Reporting(s) && Counting(s) }

  /** Listeners only hear more, and nothing once they were closed. */
  ghost predicate Extends(s: State, t: State) {
    && |s.heard| <= |t.heard|
    && forall k | 0 <= k < |s.heard| :: s.heard[k] <= t.heard[k] && (Ended(s.heard[k]) ==> t.heard[k] == s.heard[k])
  }

  lemma LiveIsNotEnded(calls: seq<Event>)
    requires Live(calls)
    ensures !Ended(calls) && Ended(calls + [Close])
  {
    assert (calls + [Close])[..|calls|] == calls;
  }

  lemma CloseKeeps(s: State, id: nat)
    requires Inv(s) && id in s.streams
    ensures Inv(CloseStream(s, id)) && Extends(s, CloseStream(s, id))
  {
    CloseReports(s, id);
    CloseCounts(s, id);
  }

  lemma CloseReports(s: State, id: nat)
    requires Reporting(s) && id in s.streams
    ensures Reporting(CloseStream(s, id)) && Extends(s, CloseStream(s, id))
  {
    hide Live, Ended, SmallStream;
    LiveIsNotEnded(s.heard[s.streams[id].listener]);
  }

  lemma CloseCounts(s: State, id: nat)
    requires Inv(s) && id in s.streams
    ensures Counting(CloseStream(s, id))
  {
    hide CountEnded, Live, Ended, SmallStream;
    var st := s.streams[id];
    var calls := s.heard[st.listener];
    assert Live(calls);
    LiveIsNotEnded(calls);
    hide Reporting;
    CountOneMore(s.heard, st.listener, calls + [Close]);
    OneStreamLess(s, id);
    OneLess(|s.streams|);
  }

  lemma OneStreamLess(s: State, id: nat)
    requires id in s.streams && ListenersThere(s)
    ensures |s.streams| == |CloseStream(s, id).streams| + 1
  {
    assert s.streams.Keys == CloseStream(s, id).streams.Keys + {id};
  }

  lemma OneLess(n: nat)
    requires n > 0
    ensures (n % UINT32 - 1) % UINT32 == (n - 1) % UINT32
  {
  }

  lemma ExtendsOn(s: State, t: State, u: State)
    requires Extends(s, t) && Extends(t, u)
    ensures Extends(s, u)
  {
    hide Ended;
  }

  lemma {:induction false} PurgeKeeps(s: State, todo: set<nat>, now: nat)
    requires Inv(s) && todo <= s.streams.Keys
    ensures Inv(PurgeAll(s, todo, now)) && Extends(s, PurgeAll(s, todo, now))
    decreases |todo|
  {
    hide Inv, TimedOut, CloseStream, Extends;
    InvHasListeners(s);
    if todo == {} {
      ExtendsItself(s);
    } else {
      LeastExists(todo);
      var id :| IsLeast(id, todo) && PurgeAll(s, todo, now) == PurgeAll(PurgeOne(s, id, now), todo - {id}, now);
      var t := PurgeOne(s, id, now);
      PurgeOneKeeps(s, id, now);
      assert |todo - {id}| < |todo|;
      PurgeKeeps(t, todo - {id}, now);
      ExtendsOn(s, t, PurgeAll(t, todo - {id}, now));
    }
  }

  lemma InvHasListeners(s: State)
    requires Inv(s)
    ensures ListenersThere(s)
  {
  }

  lemma ExtendsItself(s: State)
    ensures Extends(s, s)
  {
  }

  lemma PurgeOneKeeps(s: State, id: nat, now: nat)
    requires Inv(s) && id in s.streams
    ensures Inv(PurgeOne(s, id, now)) && Extends(s, PurgeOne(s, id, now))
  {
    if TimedOut(s.streams[id], now) { CloseKeeps(s, id); }
  }

  /** Changing a stream but not its listener. */
  lemma PutKeeps(s: State, id: nat, st: Stream)
    requires Inv(s) && id in s.streams && st.listener == s.streams[id].listener && SmallStream(st)
    ensures Inv(PutStream(s, id, st)) && Extends(s, PutStream(s, id, st))
  {
    hide Live, Ended, SmallStream, CountEnded;
    var t := PutStream(s, id, st);
    assert Counting(t) by {
      hide Reporting;
      assert t.streams.Keys == s.streams.Keys;
    }
    hide Counting;
    assert forall k | k in t.streams :: k in s.streams && t.streams[k].listener == s.streams[k].listener;
  }

  lemma TellKeeps(s: State, id: nat, events: seq<Event>)
    requires Inv(s) && id in s.streams && forall i | 0 <= i < |events| :: IsData(events[i])
    ensures var t := Tell(s, s.streams[id].listener, events); Inv(t) && Extends(s, t)
  {
    hide CountEnded, SmallStream, Ended;
    var k := s.streams[id].listener;
    var calls := s.heard[k];
    LiveIsNotEnded(calls);
    LiveIsNotEnded(calls + events);
    CountOneMore(s.heard, k, calls + events);
  }

  lemma {:induction false} WrapIsData(fromInitiator: bool, data: seq<seq<byte>>)
    ensures forall i | 0 <= i < |data| :: IsData(Wrap(fromInitiator, data)[i])
  {
    if data != [] { WrapIsData(fromInitiator, data[1..]); }
  }

  lemma ReassembledIsSmall(advance: bool, d: Dir, seqNumber: nat, payload: seq<byte>)
    requires |d.buffer| <= TCP_SEQ_BUFFER_SIZE
    ensures |Reassembled(advance, d, seqNumber, payload).dir.buffer| <= TCP_SEQ_BUFFER_SIZE
  {
    hide Drain;
  }

  lemma PayloadKeeps(advance: bool, s: State, id: nat, p: Packet)
    requires Inv(s) && id in s.streams
    ensures var t := TakePayload(advance, s, id, p).0; Inv(t) && Extends(s, t)
  {
    hide Reassembled, Inv, Extends;
    InvHasListeners(s);
    SmallOf(s, id);
    if p.payload == [] {
      ExtendsItself(s);
    } else {
      var st := s.streams[id];
      var fromInitiator := p.dstPort == st.localPort;
      var r := Reassembled(advance, DirOf(st, fromInitiator), p.seqNumber, p.payload);
      ReassembledIsSmall(advance, DirOf(st, fromInitiator), p.seqNumber, p.payload);
      WrapIsData(fromInitiator, r.data);
      var told := Tell(s, st.listener, Wrap(fromInitiator, r.data));
      TellKeeps(s, id, Wrap(fromInitiator, r.data));
      PutKeeps(told, id, WithDir(st, fromInitiator, r.dir));
      ExtendsOn(s, told, PutStream(told, id, WithDir(st, fromInitiator, r.dir)));
    }
  }

  lemma SmallOf(s: State, id: nat)
    requires Inv(s) && id in s.streams
    ensures SmallStream(s.streams[id])
  {
  }

  lemma FlagsKeep(s: State, id: nat, p: Packet)
    requires Inv(s) && id in s.streams
    ensures Inv(TakeFlags(s, id, p)) && Extends(s, TakeFlags(s, id, p))
  {
    hide Inv, Extends;
    InvHasListeners(s);
    SmallOf(s, id);
    var st := Flagged(s.streams[id], p);
    FlaggedIsSmall(s.streams[id], p);
    hide Flagged, SmallStream;
    if st.numFin == 2 || p.rst {
      var t := PutStream(s, id, s.streams[id]);
      PutKeeps(s, id, s.streams[id]);
      CloseKeeps(t, id);
      ExtendsOn(s, t, CloseStream(t, id));
      assert s.streams[id := st] - {id} == t.streams - {id};
    } else {
      PutKeeps(s, id, st);
    }
  }

  lemma FlaggedIsSmall(st: Stream, p: Packet)
    requires SmallStream(st)
    ensures Flagged(st, p).numFin != 2 ==> SmallStream(Flagged(st, p))
  {
  }

  lemma HandleKeeps(advance: bool, s: State, id: nat, p: Packet, now: nat, purgeNow: nat)
    requires Inv(s) && id in s.streams
    ensures Inv(s) && ListenersThere(s)
    ensures var t := Handle(advance, s, id, p, now, purgeNow); Inv(t) && Extends(s, t)
  {
    hide Inv, Extends, TakePayload, TakeFlags, PurgeAll;
    InvHasListeners(s);
    SmallOf(s, id);
    var st := s.streams[id].(lastActivity := now);
    var s1 := PutStream(s, id, st);
    PutKeeps(s, id, st);
    var r := TakePayload(advance, s1, id, p);
    PayloadKeeps(advance, s1, id, p);
    ExtendsOn(s, s1, r.0);
    if !r.1 {
      CloseKeeps(r.0, id);
      ExtendsOn(s, r.0, CloseStream(r.0, id));
    } else {
      var s2 := TakeFlags(r.0, id, p);
      FlagsKeep(r.0, id, p);
      ExtendsOn(s, r.0, s2);
      PurgeOldKeeps(s2, purgeNow);
      ExtendsOn(s, s2, PurgeOld(s2, purgeNow));
    }
  }

  lemma PurgeOldKeeps(s: State, now: nat)
    requires Inv(s)
    ensures ListenersThere(s) && Inv(PurgeOld(s, now)) && Extends(s, PurgeOld(s, now))
  {
    hide PurgeAll, Inv, Extends;
    InvHasListeners(s);
    var cnt := (s.purgeCnt + 1) % UINT32;
    if cnt < PURGE_EVERY {
      CountersOnly(s, s.(purgeCnt := cnt));
    } else {
      var t := s.(purgeCnt := 0);
      CountersOnly(s, t);
      PurgeKeeps(t, t.streams.Keys, now);
      ExtendsOn(s, t, PurgeAll(t, t.streams.Keys, now));
    }
  }

  lemma AcceptKeeps(s: State, id: nat, p: Packet)
    requires Inv(s) && id !in s.streams
    ensures Inv(Accept(s, id, p)) && Extends(s, Accept(s, id, p))
  {
    AcceptReports(s, id, p);
    AcceptCounts(s, id, p);
  }

  lemma AcceptCounts(s: State, id: nat, p: Packet)
    requires Counting(s) && ListenersThere(s) && id !in s.streams
    ensures Counting(Accept(s, id, p))
  {
    hide Ended, Live, SmallStream, CountEnded;
    var t := Accept(s, id, p);
    OpenIsLive();
    CountAppended(s.heard, [Open]);
    assert t.streams.Keys == s.streams.Keys + {id};
    assert |t.streams| == |s.streams| + 1;
    OneMore(|s.streams|);
    OneMore(|s.heard|);
  }

  lemma OpenIsLive()
    ensures Live([Open])
  {
  }

  lemma CountAppended(heard: seq<seq<Event>>, calls: seq<Event>)
    requires Live(calls)
    ensures CountEnded(heard + [calls]) == CountEnded(heard)
  {
    LiveIsNotEnded(calls);
    assert (heard + [calls])[..|heard|] == heard;
  }

  lemma OneMore(n: nat)
    ensures (n % UINT32 + 1) % UINT32 == (n + 1) % UINT32
  {
  }

  lemma AcceptReports(s: State, id: nat, p: Packet)
    requires Reporting(s) && id !in s.streams
    ensures Reporting(Accept(s, id, p)) && Extends(s, Accept(s, id, p)) && Live([Open])
  {
    hide Ended;
    OpenIsLive();
    hide Live;
    var t := Accept(s, id, p);
    assert forall k | 0 <= k < |s.heard| :: t.heard[k] == s.heard[k];
  }

  /** One packet, whatever it is and whenever it comes. */
  lemma PacketKeeps(advance: bool, s: State, p: Packet, now: nat, purgeNow: nat)
    requires Inv(s)
    ensures ListenersThere(s)
    ensures var t := OnPacket(advance, s, p, now, purgeNow); Inv(t) && Extends(s, t)
  {
    hide Inv, Extends, Handle;
    InvHasListeners(s);
    ExtendsItself(s);
    var id := IdOf(p);
    if p.containsTcp {
      if p.syn && !p.ack {
        if id in s.streams {
          CountersOnly(s, s.(numIDCollision := (s.numIDCollision + 1) % UINT32));
          CloseKeeps(s.(numIDCollision := (s.numIDCollision + 1) % UINT32), id);
          ExtendsOn(s, s.(numIDCollision := (s.numIDCollision + 1) % UINT32),
                    CloseStream(s.(numIDCollision := (s.numIDCollision + 1) % UINT32), id));
        } else {
          AcceptKeeps(s, id, p);
          HandleKeeps(advance, Accept(s, id, p), id, p, now, purgeNow);
          ExtendsOn(s, Accept(s, id, p), Handle(advance, Accept(s, id, p), id, p, now, purgeNow));
        }
      } else if id !in s.streams {
        CountersOnly(s, s.(numPacketsIgnored := (s.numPacketsIgnored + 1) % UINT32));
      } else if p.syn {
        var st := s.streams[id];
        var st1 := st.(toInitiator := st.toInitiator.(next := p.seqNumber));
        SmallOf(s, id);
        PutKeeps(s, id, st1);
        HandleKeeps(advance, PutStream(s, id, st1), id, p, now, purgeNow);
        ExtendsOn(s, PutStream(s, id, st1), Handle(advance, PutStream(s, id, st1), id, p, now, purgeNow));
      } else {
        HandleKeeps(advance, s, id, p, now, purgeNow);
      }
    }
  }

  lemma CountersOnly(s: State, t: State)
    requires Inv(s) && t.streams == s.streams && t.heard == s.heard
    requires t.numConnections == s.numConnections && t.numOpenConnections == s.numOpenConnections
    ensures Inv(t) && Extends(s, t)
  {
  }

  /** A packet and the times at which it is handled. */
  datatype Arrival = Arrival(packet: Packet, now: nat, purgeNow: nat)

  ghost function RunAll(advance: bool, s: State, arrivals: seq<Arrival>): (t: State)
    requires ListenersThere(s)
    ensures ListenersThere(t)
    decreases |arrivals|
  {
    if arrivals == [] then s
    else
      var a := arrivals[0];
      RunAll(advance, OnPacket(advance, s, a.packet, a.now, a.purgeNow), arrivals[1..])
  }

  /** Every run of packets and purges keeps all of it. */
  lemma {:induction false} RunKeeps(advance: bool, s: State, arrivals: seq<Arrival>)
    requires Inv(s)
    ensures ListenersThere(s) && Inv(RunAll(advance, s, arrivals)) && Extends(s, RunAll(advance, s, arrivals))
    decreases |arrivals|
  {
    hide Inv, Extends, OnPacket;
    InvHasListeners(s);
    if arrivals == [] {
      ExtendsItself(s);
    } else {
      var a := arrivals[0];
      var t := OnPacket(advance, s, a.packet, a.now, a.purgeNow);
      PacketKeeps(advance, s, a.packet, a.now, a.purgeNow);
      RunKeeps(advance, t, arrivals[1..]);
      ExtendsOn(s, t, RunAll(advance, t, arrivals[1..]));
    }
  }

  /** And so does every run from the very start. */
  lemma EveryRun(advance: bool, arrivals: seq<Arrival>)
    ensures Inv(RunAll(advance, Initial(), arrivals))
  {
    RunKeeps(advance, Initial(), arrivals);
  }
}
