/** The reassembler: a map of stream objects, changed packet by packet. Every method does to
  * the map what the state machine of all connections does to its value. */
module TcpReassembler {
  import opened Bytes
  import opened TcpDirection
  import C = TcpConnections

  /** The two directions are parts of the stream, not objects of their own. */
  class TcpStream {
    var fromInitiator: Dir
    var toInitiator: Dir
    const localPort: nat
    const listener: nat
    const id: nat
    var lastActivityTs: nat
    var numFin: nat

    constructor (id: nat, localPort: nat, seqNumber: nat, listener: nat)
      ensures this.id == id && View() == C.Stream(Dir(seqNumber, []), Dir(0, []), localPort, listener, 0, 0)
    {
      fromInitiator, toInitiator := Dir(seqNumber, []), Dir(0, []);
      this.id, this.localPort, this.listener := id, localPort, listener;
      lastActivityTs, numFin := 0, 0;
    }

    function View(): C.Stream
      reads this
    {
      C.Stream(fromInitiator, toInitiator, localPort, listener, lastActivityTs, numFin)
    }
  }

  class TcpReassembler {
    /** False is the code as it is. */
    const advance: bool
    var streams: map<nat, TcpStream>
    /** The calls made to every listener so far. */
    var heard: seq<seq<C.Event>>
    var purgeCnt: nat
    var numConnections: nat
    var numOpenConnections: nat
    var numPurgedConnections: nat
    var numIDCollision: nat
    var numPacketsIgnored: nat

    constructor (advance: bool)
      ensures Valid() && View() == C.Initial() && this.advance == advance && streams == map[]
    {
      this.advance := advance;
      streams, heard, purgeCnt := map[], [], 0;
      numConnections, numOpenConnections, numPurgedConnections, numIDCollision, numPacketsIgnored := 0, 0, 0, 0, 0;
    }

    /** Every stream is stored under its id; so no two are the same object. */
    ghost predicate Valid()
      reads this, streams.Values
    {
      forall id | id in streams :: streams[id].id == id
    }

    ghost function Streams(): (m: map<nat, C.Stream>)
      reads this, streams.Values
      ensures m.Keys == streams.Keys
    {
      map id | id in streams :: streams[id].View()
    }

    ghost function View(): C.State
      reads this, streams.Values
    {
      C.State(Streams(), heard, purgeCnt, numConnections, numOpenConnections, numPurgedConnections, numIDCollision,
              numPacketsIgnored)
    }

    /** The stream is one of this reassembler's. */
    ghost predicate Owns(stream: TcpStream)
      reads this
    {
      stream.id in streams && streams[stream.id] == stream
    }

    method CloseStream(stream: TcpStream)
      requires Valid() && C.ListenersThere(View()) && Owns(stream)
      modifies this
      ensures Valid() && streams == old(streams) - {stream.id}
      ensures View() == C.CloseStream(old(View()), stream.id)
    {
      assert View().streams[stream.id].listener == stream.listener;
      heard := heard[stream.listener := heard[stream.listener] + [C.Close]];
      streams := streams - {stream.id};
      numOpenConnections := (numOpenConnections - 1) % UINT32;
      assert Streams() == old(Streams()) - {stream.id};
    }

    method PurgeOld(now: nat)
      requires Valid() && C.ListenersThere(View())
      modifies this
      ensures Valid() && View() == C.PurgeOld(old(View()), now)
      ensures streams.Values <= old(streams.Values)
    {
      hide C.CloseStream, C.TimedOut, C.PurgeOne;
      purgeCnt := (purgeCnt + 1) % UINT32;
      assert Streams() == old(Streams());
      if purgeCnt < C.PURGE_EVERY { return; }
      purgeCnt := 0;
      assert Streams() == old(Streams());
      PurgeAll(now);
    }

    method PurgeAll(now: nat)
      requires Valid() && C.ListenersThere(View())
      modifies this
      ensures Valid() && View() == C.PurgeAll(old(View()), old(streams.Keys), now)
      ensures streams.Values <= old(streams.Values)
    {
      hide C.CloseStream, C.TimedOut, C.PurgeOne;
      var todo := streams.Keys;
      ghost var whole := C.PurgeAll(View(), todo, now);
      while todo != {}
        invariant Valid() && C.ListenersThere(View()) && todo <= streams.Keys && streams.Values <= old(streams.Values)
        invariant C.PurgeAll(View(), todo, now) == whole
        decreases |todo|
      {
        hide C.PurgeAll;
        C.LeastExists(todo);
        var id :| C.IsLeast(id, todo);
        C.PurgeNext(View(), todo, now, id);
        PurgeOne(id, now);
        todo := todo - {id};
      }
    }

    method PurgeOne(id: nat, now: nat)
      requires Valid() && C.ListenersThere(View()) && id in streams
      modifies this
      ensures Valid() && View() == C.PurgeOne(old(View()), id, now)
      ensures streams == old(streams) || streams == old(streams) - {id}
    {
      var stream := streams[id];
      assert View().streams[id] == stream.View();
      var inactivity := (now - stream.lastActivityTs) % UINT64;
      if inactivity > C.TCP_DEF_TIMEOUT {
        CloseStream(stream);
        ghost var closed := Streams();
        numPurgedConnections := (numPurgedConnections + 1) % UINT32;
        assert Streams() == closed;
      }
    }

    /** Takes the direction out of the stream, has it reassemble, and puts it back. */
    method ReAssemble(stream: TcpStream, fromInitiator: bool, p: C.Packet) returns (data: seq<seq<byte>>, ok: bool)
      modifies stream
      ensures var st := old(stream.View());
        var r := Reassembled(advance, C.DirOf(st, fromInitiator), p.seqNumber, p.payload);
        stream.View() == C.WithDir(st, fromInitiator, r.dir) && data == r.data && ok == r.ok
    {
      hide Reassembled;
      var dir := new TcpStreamDirection(if fromInitiator then stream.fromInitiator else stream.toInitiator);
      assert dir.View() == C.DirOf(stream.View(), fromInitiator);
      data, ok := dir.ReAssemble(advance, p.seqNumber, p.payload);
      assert Result(dir.View(), data, ok) == Reassembled(advance, C.DirOf(old(stream.View()), fromInitiator), p.seqNumber, p.payload);
      assert stream.View() == old(stream.View());
      var after := dir.View();
      if fromInitiator { stream.fromInitiator := after; } else { stream.toInitiator := after; }
    }

    method TakePayload(stream: TcpStream, p: C.Packet) returns (ok: bool)
      requires Valid() && C.ListenersThere(View()) && Owns(stream)
      modifies this`heard, stream
      ensures Valid() && (View(), ok) == C.TakePayload(advance, old(View()), stream.id, p)
    {
      hide Reassembled, C.Wrap;
      assert View().streams[stream.id] == stream.View();
      if p.payload == [] { return true; }
      var data;
      var fromInitiator := p.dstPort == stream.localPort;
      data, ok := ReAssemble(stream, fromInitiator, p);
      heard := heard[stream.listener := heard[stream.listener] + C.Wrap(fromInitiator, data)];
      assert Streams() == old(Streams())[stream.id := stream.View()];
    }

    method TakeFlags(stream: TcpStream, p: C.Packet)
      requires Valid() && C.ListenersThere(View()) && Owns(stream)
      modifies this, stream
      ensures Valid() && streams.Values <= old(streams.Values)
      ensures View() == C.TakeFlags(old(View()), stream.id, p)
    {
      hide C.CloseStream;
      assert View().streams[stream.id] == stream.View();
      CountFlags(stream, p);
      assert Streams() == old(Streams())[stream.id := stream.View()];
      if stream.numFin == 2 || p.rst { CloseStream(stream); }
    }

    method CountFlags(stream: TcpStream, p: C.Packet)
      modifies stream
      ensures stream.View() == C.Flagged(old(stream.View()), p)
    {
      if p.syn {
        if p.dstPort == stream.localPort {
          stream.fromInitiator := stream.fromInitiator.(next := (stream.fromInitiator.next + 1) % UINT32);
        } else {
          stream.toInitiator := stream.toInitiator.(next := (stream.toInitiator.next + 1) % UINT32);
        }
      }
      if p.fin { stream.numFin := stream.numFin + 1; }
    }

    /** What every packet of a known connection goes through. */
    method Handle(stream: TcpStream, p: C.Packet, now: nat, purgeNow: nat)
      requires Valid() && C.ListenersThere(View()) && Owns(stream)
      modifies this, stream
      ensures Valid() && streams.Values <= old(streams.Values)
      ensures View() == C.Handle(advance, old(View()), stream.id, p, now, purgeNow)
    {
      hide C.TakePayload, C.TakeFlags, C.PurgeOld, C.CloseStream;
      assert View().streams[stream.id] == stream.View();
      stream.lastActivityTs := now;
      assert Streams() == old(Streams())[stream.id := stream.View()];
      var ok := TakePayload(stream, p);
      if !ok {
        CloseStream(stream);
        return;
      }
      TakeFlags(stream, p);
      PurgeOld(purgeNow);
    }

    /** One packet at a time; what this does to all connections is what the state machine says,
      * and so everything that machine keeps is kept. */
    method OnIPv4Packet(p: C.Packet, now: nat, purgeNow: nat)
      requires Valid() && C.Inv(View())
      modifies this, streams.Values
      ensures Valid() && fresh(streams.Values - old(streams.Values))
      ensures C.Inv(View()) && C.ListenersThere(old(View()))
      ensures View() == C.OnPacket(advance, old(View()), p, now, purgeNow) && C.Extends(old(View()), View())
    {
      hide C.Inv, C.Extends, C.Handle, C.CloseStream;
      C.InvHasListeners(View());
      C.PacketKeeps(advance, View(), p, now, purgeNow);
      if !p.containsTcp { return; }
      var id := C.IdOf(p);
      if p.syn && !p.ack {
        if id in streams {
          numIDCollision := (numIDCollision + 1) % UINT32;
          assert Streams() == old(Streams());
          CloseStream(streams[id]);
          return;
        }
        var accepted := AcceptStream(id, p);
        Handle(accepted, p, now, purgeNow);
      } else if id !in streams {
        numPacketsIgnored := (numPacketsIgnored + 1) % UINT32;
        assert Streams() == old(Streams());
      } else {
        var stream := streams[id];
        if p.syn {
          assert View().streams[id] == stream.View();
          stream.toInitiator := stream.toInitiator.(next := p.seqNumber);
          assert Streams() == old(Streams())[id := stream.View()];
        }
        Handle(stream, p, now, purgeNow);
      }
    }

    method AcceptStream(id: nat, p: C.Packet) returns (stream: TcpStream)
      requires Valid() && C.ListenersThere(View()) && id !in streams
      modifies this
      ensures Valid() && fresh(stream) && stream.id == id && streams == old(streams)[id := stream]
      ensures View() == C.Accept(old(View()), id, p)
    {
      numConnections := (numConnections + 1) % UINT32;
      numOpenConnections := (numOpenConnections + 1) % UINT32;
      stream := new TcpStream(id, p.dstPort, p.seqNumber, |heard|);
      streams := streams[id := stream];
      heard := heard + [[C.Open]];
      assert Streams() == old(Streams())[id := stream.View()];
    }
  }
}
