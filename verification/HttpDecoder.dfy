/** The decoder of one TCP connection: two directions, one buffer each, calls to listeners. No
  * check changes what the bytes at hand will come to in the end; it only gets nearer to it. */
module HttpDecoder {
  import opened Bytes
  import opened Buffers
  import opened HttpSemantics

  class HttpStreamDir {
    const buffer: DataBuffer
    var header: Option<Header>
    var state: State
    var contentLength: uint32
    var chunkLength: uint32
    var contentReceived: uint32
    var headerOnlyRequest: bool
    var isRequest: bool

    constructor ()
      ensures fresh(buffer) && fresh(buffer.bufData) && buffer.Valid() && View() == NewDir()
    {
      buffer := new DataBuffer();
      header, state := None, WaitingForHeader;
      contentLength, chunkLength, contentReceived := 0, 0, 0;
      headerOnlyRequest, isRequest := false, false;
    }

    function View(): Dir
      requires buffer.Valid()
      reads this, buffer, buffer.bufData
    {
      Dir(buffer.Contents(), header, state, contentLength, chunkLength, contentReceived, headerOnlyRequest, isRequest)
    }

    predicate Apart(other: HttpStreamDir)
      reads buffer, other.buffer
    {
      this != other && buffer != other.buffer && buffer.bufData != other.buffer.bufData
      && buffer.Valid() && other.buffer.Valid()
    }
  }

  function NewDir(): Dir {
    Dir([], None, WaitingForHeader, 0, 0, 0, false, false)
  }

  /** Both directions, seen from the one that bytes arrive on. */
  function ViewBoth(stream: HttpStreamDir, other: HttpStreamDir): Both
    requires stream.Apart(other)
    reads stream, stream.buffer, stream.buffer.bufData, other, other.buffer, other.buffer.bufData
  {
    Both(stream.View(), other.View())
  }

  // ---- what has been told and what will be ----

  /** What the listeners will have heard, and the state, once the bytes now there are used up. */
  function Fate(p: Parser, s: Both, trace: seq<Event>): Outcome
    requires Good(s)
  {
    Outcome(Run(p, s).final, Flat(trace) + Run(p, s).events)
  }

  lemma FateKept(p: Parser, s: Both, trace: seq<Event>, events: seq<Event>, t: Both)
    requires Leads(p, s, Flat(events), t)
    ensures Fate(p, t, trace + events) == Fate(p, s, trace)
  {
    hide Run, Good, Flat;
    FlatConcat(trace, events);
    assert Flat(trace) + (Flat(events) + Run(p, t).events) == (Flat(trace) + Flat(events)) + Run(p, t).events;
  }

  lemma FlatOfOne(e: Event)
    ensures Flat([e]) == Single(e) && Flat([]) == []
  {
    assert [e][..0] == [];
    assert [] + Single(e) == Single(e);
  }

  /** Fewer body bytes than expected are there when a call ends. */
  predicate Expecting(d: Dir) {
    && (d.state.WaitingForContent? ==> d.contentReceived < d.contentLength)
    && (d.state.WaitingForChunkData? ==> d.contentReceived < d.chunkLength)
  }

  /** No step is possible before more bytes arrive. */
  predicate AtRest(p: Parser, s: Both) {
    Good(s) && Step(p, s).Stuck?
  }

  lemma RestIsFinal(p: Parser, s: Both, trace: seq<Event>)
    requires AtRest(p, s)
    ensures Fate(p, s, trace) == Outcome(s, Flat(trace))
  {
  }

  lemma EmptyIsAtRest(p: Parser, s: Both)
    requires Good(s) && Expecting(s.mine) && s.mine.buffer == []
    ensures AtRest(p, s)
  {
  }

  // ---- the stages of a check, on values ----

  lemma HeaderFate(p: Parser, s: Both, trace: seq<Event>)
    requires Good(s) && Step(p, s).Moves? && Flat(Step(p, s).events) == Step(p, s).events
    ensures var m := Step(p, s); Fate(p, m.to, trace + m.events) == Fate(p, s, trace)
  {
    hide Run, Good, Step, Flat;
    StepLeads(p, s);
    FateKept(p, s, trace, Step(p, s).events, Step(p, s).to);
  }

  lemma BytesFate(p: Parser, s: Both, trace: seq<Event>, n: nat)
    requires Good(s) && n <= |s.mine.buffer| && Accepts(s.mine, n)
    ensures var t, data := s.(mine := Advance(s.mine, n)), s.mine.buffer[..n];
      Good(t) && Fate(p, t, if n == 0 then trace else trace + [Traffic(s, data)]) == Fate(p, s, trace)
  {
    hide Run, Step, Flat, Fate;
    var data := s.mine.buffer[..n];
    BytesLead(p, s, n);
    FlatOfOne(Traffic(s, data));
    var t := s.(mine := Advance(s.mine, n));
    if n == 0 {
      assert Single(Traffic(s, data)) == [];
      FateKept(p, s, trace, [], t);
      assert trace + [] == trace;
    } else {
      FateKept(p, s, trace, [Traffic(s, data)], t);
    }
  }

  class HttpDecoder {
    const parser: Parser
    const inn: HttpStreamDir
    const out: HttpStreamDir
    /** The calls made to the listeners so far. */
    var trace: seq<Event>

    constructor (parser: Parser)
      ensures this.parser == parser && trace == [] && fresh(inn) && fresh(out)
      ensures fresh(inn.buffer) && fresh(inn.buffer.bufData) && fresh(out.buffer) && fresh(out.buffer.bufData)
      ensures Valid() && ViewBoth(inn, out) == Both(NewDir(), NewDir())
    {
      EmptyIsAtRest(parser, Both(NewDir(), NewDir()));
      this.parser := parser;
      inn := new HttpStreamDir();
      out := new HttpStreamDir();
      trace := [];
    }

    /** Passes body bytes on. */
    method HandleData(stream: HttpStreamDir, other: HttpStreamDir, data: seq<byte>)
      requires stream.Apart(other) && Good(ViewBoth(stream, other)) && InBody(stream.View())
      modifies this`trace
      ensures trace == if data == [] then old(trace) else old(trace) + [Traffic(ViewBoth(stream, other), data)]
    {
      if data == [] { return; }
      if stream.isRequest {
        trace := trace + [RequestTraffic(stream.header.value, data)];
      } else {
        trace := trace + [ResponseTraffic(other.header.value, stream.header.value, data)];
      }
    }

    /** Both directions are ignored from now on. */
    method MarkCorrupted(stream: HttpStreamDir, other: HttpStreamDir)
      requires stream.Apart(other)
      modifies stream`state, other`state
      ensures ViewBoth(stream, other) == Corrupt(old(ViewBoth(stream, other)))
    {
      stream.state := Corrupted;
      other.state := Corrupted;
    }

    /** Looks at a complete header and decides how to go on. */
    method UseHeader(stream: HttpStreamDir, other: HttpStreamDir, parsed: Parsed) returns (stop: bool)
      requires stream.Apart(other) && Good(ViewBoth(stream, other)) && stream.state.WaitingForHeader?
      modifies this`trace, stream, other`state, other`headerOnlyRequest
      ensures var m := TakeHeader(parsed, old(ViewBoth(stream, other)));
        ViewBoth(stream, other) == m.to && trace == old(trace) + m.events
      ensures stop == stream.state.Corrupted?
    {
      var h := parsed.header;
      stream.header := Some(h);
      if !parsed.ok {
        MarkCorrupted(stream, other);
        return true;
      }
      stream.isRequest := !h.verb.ResponseMethod?;
      if h.gzip {
        MarkCorrupted(stream, other);
        return true;
      }
      if stream.isRequest {
        trace := trace + [Request(h)];
      } else {
        if other.header.None? {
          MarkCorrupted(stream, other);
          return true;
        }
        trace := trace + [Response(other.header.value, h)];
      }
      if stream.headerOnlyRequest {
        stream.headerOnlyRequest := false;
        stream.state := WaitingForHeader;
      } else if h.contentLength.Some? {
        stream.contentLength := h.contentLength.value;
        stream.state := WaitingForContent;
      } else if h.chunked {
        stream.state := WaitingForChunkSize;
      } else if h.closes {
        stream.state := WaitingForUnknownContent;
      } else {
        stream.state := WaitingForHeader;
      }
      other.headerOnlyRequest := h.verb.Head?;
      stop := false;
    }

    method CheckHeader(stream: HttpStreamDir, other: HttpStreamDir) returns (stop: bool)
      requires stream.Apart(other) && Good(ViewBoth(stream, other)) && stream.state.WaitingForHeader?
      modifies this`trace, stream, stream.buffer`bufUsed, stream.buffer.bufData, other`state, other`headerOnlyRequest
      ensures stream.Apart(other) && Good(ViewBoth(stream, other))
      ensures Fate(parser, ViewBoth(stream, other), trace) == old(Fate(parser, ViewBoth(stream, other), trace))
      ensures stop ==> AtRest(parser, ViewBoth(stream, other)) && stream.buffer.bufUsed <= old(stream.buffer.bufUsed)
      ensures !stop ==> stream.buffer.bufUsed < old(stream.buffer.bufUsed) && !stream.state.Corrupted?
    {
      hide Fate, Find, Flat, TakeHeader, Run, Step, Good;
      ghost var s, before := ViewBoth(stream, other), trace;
      var pos := stream.buffer.IndexOf(HEADER_END);
      HeaderStepIs(parser, s);
      if pos == -1 { return true; }
      EventsAreFlat(parser, s);
      HeaderFate(parser, s, before);
      if pos < 14 || pos > 32 * 1024 {
        MarkCorrupted(stream, other);
        assert trace + [] == trace;
        return true;
      }
      stop := ConsumeHeader(stream, other, pos);
    }

    /** Takes the header out of the buffer and uses it. */
    method ConsumeHeader(stream: HttpStreamDir, other: HttpStreamDir, pos: nat) returns (stop: bool)
      requires stream.Apart(other) && Good(ViewBoth(stream, other)) && stream.state.WaitingForHeader?
      requires pos + 4 <= stream.buffer.bufUsed
      modifies this`trace, stream, stream.buffer`bufUsed, stream.buffer.bufData, other`state, other`headerOnlyRequest
      ensures stream.Apart(other) && stream.buffer.bufUsed == old(stream.buffer.bufUsed) - (pos + 4)
      ensures var s := old(ViewBoth(stream, other)); var t := s.(mine := s.mine.(buffer := s.mine.buffer[pos + 4..]));
        && Good(t) && var m := TakeHeader(parser.parse(s.mine.buffer[..pos + 4]), t);
           ViewBoth(stream, other) == m.to && trace == old(trace) + m.events
      ensures stop == stream.state.Corrupted?
    {
      hide TakeHeader;
      ghost var s := ViewBoth(stream, other);
      var data := stream.buffer.Get(pos + 4);
      stream.buffer.Remove(|data|);
      assert ViewBoth(stream, other) == s.(mine := s.mine.(buffer := s.mine.buffer[pos + 4..]));
      stop := UseHeader(stream, other, parser.parse(data));
    }

    /** Hands over up to `maxSize` body bytes, as all three body states do. */
    method TakeBody(stream: HttpStreamDir, other: HttpStreamDir, maxSize: nat)
      requires stream.Apart(other) && Good(ViewBoth(stream, other))
      requires InBody(stream.View()) && Accepts(stream.View(), Min(maxSize, stream.buffer.bufUsed))
      modifies this`trace, stream`contentReceived, stream.buffer`bufUsed, stream.buffer.bufData
      ensures stream.Apart(other) && Good(ViewBoth(stream, other))
      ensures var s, n := old(ViewBoth(stream, other)), Min(maxSize, old(stream.buffer.bufUsed));
        ViewBoth(stream, other) == s.(mine := Advance(s.mine, n))
      ensures Fate(parser, ViewBoth(stream, other), trace) == old(Fate(parser, ViewBoth(stream, other), trace))
    {
      hide Fate, Find, Flat, Run, Step, Good;
      ghost var s, n := ViewBoth(stream, other), Min(maxSize, stream.buffer.bufUsed);
      BytesFate(parser, s, trace, n);
      var data := stream.buffer.Get(maxSize);
      HandleData(stream, other, data);
      stream.contentReceived := (stream.contentReceived + |data|) % UINT32;
      stream.buffer.Remove(|data|);
    }

    method CheckContent(stream: HttpStreamDir, other: HttpStreamDir)
      requires stream.Apart(other) && Good(ViewBoth(stream, other)) && stream.state.WaitingForContent?
      modifies this`trace, stream, stream.buffer`bufUsed, stream.buffer.bufData
      ensures stream.Apart(other) && Good(ViewBoth(stream, other)) && Expecting(stream.View())
      ensures Fate(parser, ViewBoth(stream, other), trace) == old(Fate(parser, ViewBoth(stream, other), trace))
      ensures stream.state.WaitingForContent? || stream.state.WaitingForHeader?
      ensures stream.buffer.bufUsed <= old(stream.buffer.bufUsed)
      ensures old(Expecting(stream.View())) && old(stream.buffer.bufUsed) > 0 ==> stream.buffer.bufUsed < old(stream.buffer.bufUsed)
    {
      hide Fate, Find, Flat, Run, Step;
      TakeBody(stream, other, stream.contentLength - stream.contentReceived);
      if stream.contentReceived == stream.contentLength {
        ghost var s := ViewBoth(stream, other);
        FullContent(parser, s, trace);
        stream.contentLength := 0;
        stream.contentReceived := 0;
        stream.state := WaitingForHeader;
        trace := trace + [Done(stream.header.value)];
        assert Step(parser, s).to == ViewBoth(stream, other);
      }
    }

    method CheckChunkData(stream: HttpStreamDir, other: HttpStreamDir)
      requires stream.Apart(other) && Good(ViewBoth(stream, other)) && stream.state.WaitingForChunkData?
      modifies this`trace, stream, stream.buffer`bufUsed, stream.buffer.bufData
      ensures stream.Apart(other) && Good(ViewBoth(stream, other)) && Expecting(stream.View())
      ensures Fate(parser, ViewBoth(stream, other), trace) == old(Fate(parser, ViewBoth(stream, other), trace))
      ensures stream.state.WaitingForChunkData? || stream.state.WaitingForChunkEnd?
      ensures stream.buffer.bufUsed <= old(stream.buffer.bufUsed)
      ensures old(Expecting(stream.View())) && old(stream.buffer.bufUsed) > 0 ==> stream.buffer.bufUsed < old(stream.buffer.bufUsed)
    {
      hide Fate, Find, Flat, Run, Step;
      TakeBody(stream, other, stream.chunkLength - stream.contentReceived);
      if stream.contentReceived == stream.chunkLength {
        ghost var s := ViewBoth(stream, other);
        FullChunk(parser, s, trace);
        stream.contentReceived := 0;
        stream.state := WaitingForChunkEnd;
        assert Step(parser, s).to == ViewBoth(stream, other);
      }
    }

    method CheckChunkSize(stream: HttpStreamDir, other: HttpStreamDir) returns (stop: bool)
      requires stream.Apart(other) && Good(ViewBoth(stream, other)) && stream.state.WaitingForChunkSize?
      modifies this`trace, stream, stream.buffer`bufUsed, stream.buffer.bufData
      ensures stream.Apart(other) && Good(ViewBoth(stream, other))
      ensures Fate(parser, ViewBoth(stream, other), trace) == old(Fate(parser, ViewBoth(stream, other), trace))
      ensures stop ==> AtRest(parser, ViewBoth(stream, other)) && stream.buffer.bufUsed <= old(stream.buffer.bufUsed)
      ensures !stop ==> stream.buffer.bufUsed < old(stream.buffer.bufUsed) && stream.state.WaitingForChunkData?
    {
      hide Fate, Find, Flat, Run, Step;
      ghost var s := ViewBoth(stream, other);
      ChunkSizeFate(parser, s, trace);
      if stream.buffer.bufUsed < 2 { return true; }
      var pos := stream.buffer.IndexOf(CRLF);
      if pos == -1 { return true; }
      var data := stream.buffer.Get(pos + 2);
      stream.chunkLength := parser.hex(data[..|data| - 2]);
      assert data[..|data| - 2] == s.mine.buffer[..pos];
      stream.buffer.Remove(|data|);
      stream.state := WaitingForChunkData;
      assert Step(parser, s).to == ViewBoth(stream, other);
      stop := false;
    }

    method CheckChunkEnd(stream: HttpStreamDir, other: HttpStreamDir) returns (stop: bool)
      requires stream.Apart(other) && Good(ViewBoth(stream, other)) && stream.state.WaitingForChunkEnd?
      modifies this`trace, stream, stream.buffer`bufUsed, stream.buffer.bufData
      ensures stream.Apart(other) && Good(ViewBoth(stream, other))
      ensures Fate(parser, ViewBoth(stream, other), trace) == old(Fate(parser, ViewBoth(stream, other), trace))
      ensures stop ==> AtRest(parser, ViewBoth(stream, other)) && stream.buffer.bufUsed <= old(stream.buffer.bufUsed)
      ensures !stop ==> stream.buffer.bufUsed < old(stream.buffer.bufUsed)
      ensures !stop ==> stream.state.WaitingForHeader? || stream.state.WaitingForChunkSize?
    {
      hide Fate, Find, Flat, Run, Step;
      ghost var s := ViewBoth(stream, other);
      ChunkEndFate(parser, s, trace);
      if stream.buffer.bufUsed < 2 { return true; }
      var data := stream.buffer.Get(2);
      stream.buffer.Remove(|data|);
      if stream.chunkLength == 0 {
        stream.state := WaitingForHeader;
        trace := trace + [Done(stream.header.value)];
      } else {
        stream.state := WaitingForChunkSize;
      }
      stream.chunkLength := 0;
      stream.contentReceived := 0;
      assert Step(parser, s).to == ViewBoth(stream, other);
      stop := false;
    }

    /** Looks once for something that is complete. Whatever it does leads to the same calls and
      * the same end; it says to go on only after taking bytes out of the buffer, and to stop
      * only when nothing can be done before more bytes arrive. */
    method Check(stream: HttpStreamDir, other: HttpStreamDir) returns (again: bool)
      requires stream.Apart(other) && Good(ViewBoth(stream, other)) && Expecting(stream.View())
      modifies this`trace, stream, stream.buffer`bufUsed, stream.buffer.bufData, other`state, other`headerOnlyRequest
      ensures stream.Apart(other) && Good(ViewBoth(stream, other))
      ensures Fate(parser, ViewBoth(stream, other), trace) == old(Fate(parser, ViewBoth(stream, other), trace))
      ensures again ==> stream.buffer.bufUsed < old(stream.buffer.bufUsed) && Expecting(stream.View())
      ensures !again ==> AtRest(parser, ViewBoth(stream, other)) && stream.buffer.bufUsed <= old(stream.buffer.bufUsed)
    {
      hide Fate, Find, Flat, Run, Step, Good;
      if stream.buffer.bufUsed == 0 {
        EmptyIsAtRest(parser, ViewBoth(stream, other));
        return false;
      }
      var stop := false;
      if stream.state.WaitingForHeader? {
        stop := CheckHeader(stream, other);
        if stop { return false; }
      }
      if stream.state.WaitingForUnknownContent? {
        if stream.buffer.bufUsed == 0 {
          EmptyIsAtRest(parser, ViewBoth(stream, other));
          return false;
        }
        TakeBody(stream, other, stream.buffer.bufUsed);
      }
      if stream.state.WaitingForChunkSize? {
        stop := CheckChunkSize(stream, other);
        if stop { return false; }
      }
      if stream.state.WaitingForContent? {
        CheckContent(stream, other);
      } else if stream.state.WaitingForChunkData? {
        CheckChunkData(stream, other);
      }
      if stream.state.WaitingForChunkEnd? {
        stop := CheckChunkEnd(stream, other);
        if stop { return false; }
      }
      if stream.state.Corrupted? {
        CorruptedIsAtRest(parser, ViewBoth(stream, other));
        return false;
      }
      again := true;
    }

    /** Between two calls nothing is left that could be done, in either direction. */
    ghost predicate Valid()
      reads this, inn, out, inn.buffer, out.buffer, inn.buffer.bufData, out.buffer.bufData
    {
      inn.Apart(out) && AtRest(parser, ViewBoth(inn, out)) && AtRest(parser, ViewBoth(out, inn))
    }

    method OnDataFromInitiator(data: seq<byte>)
      requires Valid() && inn.buffer.bufUsed + |data| < UINT31
      modifies this`trace, inn, inn.buffer, inn.buffer.bufData, out`state, out`headerOnlyRequest
      ensures Valid() && (inn.buffer.bufData == old(inn.buffer.bufData) || fresh(inn.buffer.bufData))
      ensures var s := old(ViewBoth(inn, out)).With(data);
        && Good(s) && ViewBoth(inn, out) == Run(parser, s).final
        && Flat(trace) == old(Flat(trace)) + Run(parser, s).events
      ensures inn.buffer.bufUsed <= old(inn.buffer.bufUsed) + |data|
    {
      OnData(inn, out, data);
    }

    method OnDataToInitiator(data: seq<byte>)
      requires Valid() && out.buffer.bufUsed + |data| < UINT31
      modifies this`trace, out, out.buffer, out.buffer.bufData, inn`state, inn`headerOnlyRequest
      ensures Valid() && (out.buffer.bufData == old(out.buffer.bufData) || fresh(out.buffer.bufData))
      ensures var s := old(ViewBoth(out, inn)).With(data);
        && Good(s) && ViewBoth(out, inn) == Run(parser, s).final
        && Flat(trace) == old(Flat(trace)) + Run(parser, s).events
      ensures out.buffer.bufUsed <= old(out.buffer.bufUsed) + |data|
    {
      OnData(out, inn, data);
    }

    /** Buffers the data and looks for complete items until there are no more. */
    method OnData(stream: HttpStreamDir, other: HttpStreamDir, data: seq<byte>)
      requires stream.Apart(other) && AtRest(parser, ViewBoth(stream, other)) && AtRest(parser, ViewBoth(other, stream))
      requires stream.buffer.bufUsed + |data| < UINT31
      modifies this`trace, stream, stream.buffer, stream.buffer.bufData, other`state, other`headerOnlyRequest
      ensures stream.Apart(other) && AtRest(parser, ViewBoth(stream, other)) && AtRest(parser, ViewBoth(other, stream))
      ensures stream.buffer.bufData == old(stream.buffer.bufData) || fresh(stream.buffer.bufData)
      ensures var s := old(ViewBoth(stream, other)).With(data);
        && Good(s) && ViewBoth(stream, other) == Run(parser, s).final
        && Flat(trace) == old(Flat(trace)) + Run(parser, s).events
      ensures stream.buffer.bufUsed <= old(stream.buffer.bufUsed) + |data|
    {
      hide Fate, Find, Flat, Run, Step, Good, AtRest;
      ghost var s, told := ViewBoth(stream, other).With(data), trace;
      RestIsExpecting(parser, ViewBoth(stream, other), data);
      RestIsExpecting(parser, ViewBoth(other, stream), []);
      AtRestIsResting(parser, ViewBoth(other, stream));
      stream.buffer.Append(data);
      assert ViewBoth(stream, other) == s;
      CheckAll(stream, other);
      FateIs(parser, s, told);
      OtherStaysAtRest(parser, s);
    }

    /** `while (check(stream, other)) {;}` */
    method CheckAll(stream: HttpStreamDir, other: HttpStreamDir)
      requires stream.Apart(other) && Good(ViewBoth(stream, other)) && Expecting(stream.View())
      modifies this`trace, stream, stream.buffer`bufUsed, stream.buffer.bufData, other`state, other`headerOnlyRequest
      ensures stream.Apart(other) && AtRest(parser, ViewBoth(stream, other))
      ensures Good(old(ViewBoth(stream, other)))
      ensures Outcome(ViewBoth(stream, other), Flat(trace)) == old(Fate(parser, ViewBoth(stream, other), trace))
      ensures stream.buffer.bufUsed <= old(stream.buffer.bufUsed)
    {
      hide Fate, Find, Flat, Run, Step, Good, AtRest;
      ghost var s, told := ViewBoth(stream, other), trace;
      var again := Check(stream, other);
      while again
        invariant stream.Apart(other) && Good(ViewBoth(stream, other)) && stream.buffer.bufUsed <= old(stream.buffer.bufUsed)
        invariant Fate(parser, ViewBoth(stream, other), trace) == Fate(parser, s, told)
        invariant if again then Expecting(stream.View()) else AtRest(parser, ViewBoth(stream, other))
        decreases stream.buffer.bufUsed, again
      {
        again := Check(stream, other);
      }
      RestIsFinal(parser, ViewBoth(stream, other), trace);
    }

    /** Neither direction has anything left to report: the only call is the last one. */
    method OnClose()
      requires Valid()
      modifies this`trace, inn, inn.buffer`bufUsed, inn.buffer.bufData, out, out.buffer`bufUsed, out.buffer.bufData
      ensures Valid() && Flat(trace) == old(Flat(trace)) + [Close]
      ensures ViewBoth(inn, out) == old(ViewBoth(inn, out))
    {
      hide Fate, Find, Flat, Run, Step, Good, AtRest;
      RestIsExpecting(parser, ViewBoth(inn, out), []);
      RestIsFinal(parser, ViewBoth(inn, out), trace);
      CheckAll(inn, out);
      RestIsExpecting(parser, ViewBoth(out, inn), []);
      RestIsFinal(parser, ViewBoth(out, inn), trace);
      CheckAll(out, inn);
      FlatConcat(trace, [Close]);
      FlatOfOne(Close);
      trace := trace + [Close];
    }

    /** Both directions, the given one first. */
    function Seen(fromInitiator: bool): Both
      requires inn.Apart(out)
      reads this, inn, out, inn.buffer, out.buffer, inn.buffer.bufData, out.buffer.bufData
    {
      if fromInitiator then ViewBoth(inn, out) else ViewBoth(out, inn)
    }

    function Buffered(fromInitiator: bool): nat
      reads inn.buffer, out.buffer
    {
      if fromInitiator then inn.buffer.bufUsed else out.buffer.bufUsed
    }

    /** The bytes of one direction in any pieces: the same calls, byte by byte, and the same
      * final state of both directions as if they had come at once. */
    method OnPieces(fromInitiator: bool, pieces: seq<seq<byte>>)
      requires Valid() && Buffered(fromInitiator) + |Join(pieces)| < UINT31
      modifies this`trace, inn, inn.buffer, inn.buffer.bufData, out, out.buffer, out.buffer.bufData
      ensures Valid()
      ensures inn.buffer.bufData == old(inn.buffer.bufData) || fresh(inn.buffer.bufData)
      ensures out.buffer.bufData == old(out.buffer.bufData) || fresh(out.buffer.bufData)
      ensures var s := old(Seen(fromInitiator)).With(Join(pieces));
        && Good(s) && Seen(fromInitiator) == Run(parser, s).final
        && Flat(trace) == old(Flat(trace)) + Run(parser, s).events
    {
      hide Fate, Find, Flat, Run, Step, Good, AtRest;
      ghost var s0, told := Seen(fromInitiator), trace;
      Unchanged(parser, s0);
      for i := 0 to |pieces|
        invariant Valid() && Good(s0) && Good(s0.With(Join(pieces[..i])))
        invariant inn.buffer.bufData == old(inn.buffer.bufData) || fresh(inn.buffer.bufData)
        invariant out.buffer.bufData == old(out.buffer.bufData) || fresh(out.buffer.bufData)
        invariant Seen(fromInitiator) == Run(parser, s0.With(Join(pieces[..i]))).final
        invariant Flat(trace) == Flat(told) + Run(parser, s0.With(Join(pieces[..i]))).events
        invariant Buffered(fromInitiator) <= old(Buffered(fromInitiator)) + |Join(pieces[..i])|
      {
        assert pieces[..i + 1][..i] == pieces[..i];
        JoinBounded(pieces, i);
        OneMorePiece(parser, s0, pieces, i);
        if fromInitiator {
          OnDataFromInitiator(pieces[i]);
        } else {
          OnDataToInitiator(pieces[i]);
        }
      }
      assert pieces[..|pieces|] == pieces;
    }
  }

  lemma OneMorePiece(p: Parser, s0: Both, pieces: seq<seq<byte>>, i: nat)
    requires i < |pieces| && Good(s0) && Good(s0.With(Join(pieces[..i])))
    ensures Good(s0.With(Join(pieces[..i + 1])))
    ensures var first := Run(p, s0.With(Join(pieces[..i])));
      && Good(first.final.With(pieces[i]))
      && Run(p, s0.With(Join(pieces[..i + 1])))
        == var second := Run(p, first.final.With(pieces[i])); Outcome(second.final, first.events + second.events)
  {
    hide Run, Good;
    var s := s0.With(Join(pieces[..i]));
    RunResumes(p, s, pieces[i]);
    assert pieces[..i + 1][..i] == pieces[..i];
    assert s.With(pieces[i]) == s0.With(Join(pieces[..i + 1]));
  }

  lemma Unchanged(p: Parser, s: Both)
    requires AtRest(p, s)
    ensures Good(s) && s.With([]) == s && Run(p, s) == Outcome(s, [])
  {
    assert s.mine.buffer + [] == s.mine.buffer;
  }

  lemma FateIs(p: Parser, s: Both, trace: seq<Event>)
    requires Good(s)
    ensures Fate(p, s, trace) == Outcome(Run(p, s).final, Flat(trace) + Run(p, s).events)
    ensures |Run(p, s).final.mine.buffer| <= |s.mine.buffer|
  {
    RunShrinks(p, s);
  }

  lemma {:induction false} RunShrinks(p: Parser, s: Both)
    requires Good(s)
    ensures |Run(p, s).final.mine.buffer| <= |s.mine.buffer|
    decreases Rank(s.mine)
  {
    hide Step, Good;
    if Step(p, s).Moves? { RunShrinks(p, Step(p, s).to); }
  }

  lemma RestIsExpecting(p: Parser, s: Both, data: seq<byte>)
    requires AtRest(p, s)
    ensures Good(s) && Good(s.With(data)) && Expecting(s.mine) && Expecting(s.With(data).mine)
  {
  }

  // ---- the other direction stays at rest ----

  function Swap(s: Both): Both { Both(s.other, s.mine) }

  /** What resting means for a direction by itself. */
  predicate Resting(d: Dir) {
    match d.state
    case WaitingForHeader => Find(d.buffer, HEADER_END) == -1
    case WaitingForChunkSize => Find(d.buffer, CRLF) == -1
    case WaitingForChunkEnd => |d.buffer| < 2
    case Corrupted => true
    case _ => Accepts(d, 1) && d.buffer == []
  }

  lemma AtRestIsResting(p: Parser, s: Both)
    requires Good(s)
    ensures AtRest(p, s) <==> Resting(s.mine)
  {
    hide Find;
  }

  /** A step touches nothing of the other direction but whether it is ignored and whether its
    * next message has no body. */
  lemma StepSparesOther(p: Parser, s: Both)
    requires Good(s) && Step(p, s).Moves?
    ensures var o := Step(p, s).to.other;
      o == s.other.(headerOnlyRequest := o.headerOnlyRequest) || o == s.other.(state := Corrupted)
  {
    match s.mine.state
    case WaitingForHeader => HeaderSparesOther(p, s);
    case WaitingForChunkSize => hide Find;
    case WaitingForChunkEnd =>
    case Corrupted =>
    case _ => BodySparesOther(s);
  }

  lemma HeaderSparesOther(p: Parser, s: Both)
    requires Good(s) && s.mine.state.WaitingForHeader? && HeaderStep(p, s).Moves?
    ensures var o := HeaderStep(p, s).to.other;
      o == s.other.(headerOnlyRequest := o.headerOnlyRequest) || o == s.other.(state := Corrupted)
  {
    hide Find, Good;
  }

  lemma BodySparesOther(s: Both)
    requires Good(s) && (Accepts(s.mine, 0) || s.mine.state.WaitingForUnknownContent?) && BodyStep(s).Moves?
    ensures BodyStep(s).to.other == s.other
  {
    hide Good, Traffic, Advance;
  }

  lemma {:induction false} RunSparesOther(p: Parser, s: Both)
    requires Good(s) && Resting(s.other)
    ensures Resting(Run(p, s).final.other)
    decreases Rank(s.mine)
  {
    hide Find, Step, Good;
    if Step(p, s).Moves? {
      StepSparesOther(p, s);
      RunSparesOther(p, Step(p, s).to);
    }
  }

  lemma OtherStaysAtRest(p: Parser, s: Both)
    requires Good(s) && Resting(s.other)
    ensures AtRest(p, Swap(Run(p, s).final))
  {
    hide Run, Step, Good, Resting;
    RunSparesOther(p, s);
    GoodSwap(Run(p, s).final);
    AtRestIsResting(p, Swap(Run(p, s).final));
  }

  lemma GoodSwap(s: Both)
    requires Good(s)
    ensures Good(Swap(s))
  {
  }

  lemma CorruptedIsAtRest(p: Parser, s: Both)
    requires Good(s) && s.mine.state.Corrupted?
    ensures AtRest(p, s)
  {
  }

  lemma FullContent(p: Parser, s: Both, trace: seq<Event>)
    requires Good(s) && s.mine.state.WaitingForContent? && s.mine.contentReceived == s.mine.contentLength
    ensures var m := Step(p, s);
      && m == Moves(s.(mine := s.mine.(contentLength := 0, contentReceived := 0, state := WaitingForHeader)), [Done(s.mine.header.value)])
      && Good(m.to) && Fate(p, m.to, trace + m.events) == Fate(p, s, trace)
  {
    FlatOfOne(Done(s.mine.header.value));
    hide Fate, Flat;
    HeaderFate(p, s, trace);
  }

  lemma FullChunk(p: Parser, s: Both, trace: seq<Event>)
    requires Good(s) && s.mine.state.WaitingForChunkData? && s.mine.contentReceived == s.mine.chunkLength
    ensures var m := Step(p, s);
      && m == Moves(s.(mine := s.mine.(contentReceived := 0, state := WaitingForChunkEnd)), [])
      && Good(m.to) && Fate(p, m.to, trace) == Fate(p, s, trace)
  {
    FlatOfOne(Close);
    hide Fate, Flat;
    assert trace + [] == trace;
    HeaderFate(p, s, trace);
  }

  lemma ChunkSizeFate(p: Parser, s: Both, trace: seq<Event>)
    requires Good(s) && s.mine.state.WaitingForChunkSize?
    ensures var m, b, pos := Step(p, s), s.mine.buffer, Find(s.mine.buffer, CRLF);
      if |b| < 2 || pos == -1 then AtRest(p, s)
      else
        && m == Moves(s.(mine := s.mine.(buffer := b[pos + 2..], chunkLength := p.hex(b[..pos]), state := WaitingForChunkData)), [])
        && Good(m.to) && Fate(p, m.to, trace) == Fate(p, s, trace)
  {
    FlatOfOne(Close);
    hide Fate, Flat, Find;
    assert trace + [] == trace;
    if Step(p, s).Moves? { HeaderFate(p, s, trace); }
  }

  lemma ChunkEndFate(p: Parser, s: Both, trace: seq<Event>)
    requires Good(s) && s.mine.state.WaitingForChunkEnd?
    ensures var m, b, last := Step(p, s), s.mine.buffer, s.mine.chunkLength == 0;
      if |b| < 2 then AtRest(p, s)
      else
        && m == Moves(s.(mine := s.mine.(buffer := b[2..], chunkLength := 0, contentReceived := 0,
                      state := if last then WaitingForHeader else WaitingForChunkSize)),
                      if last then [Done(s.mine.header.value)] else [])
        && Good(m.to) && Fate(p, m.to, trace + m.events) == Fate(p, s, trace)
        && (!last ==> Fate(p, m.to, trace) == Fate(p, s, trace))
  {
    FlatOfOne(Done(s.mine.header.value));
    hide Fate, Flat, Find;
    assert trace + [] == trace;
    if Step(p, s).Moves? { HeaderFate(p, s, trace); }
  }

  lemma HeaderStepIs(p: Parser, s: Both)
    requires Good(s) && s.mine.state.WaitingForHeader?
    ensures var m, pos, b := Step(p, s), Find(s.mine.buffer, HEADER_END), s.mine.buffer;
      if pos == -1 then m.Stuck?
      else if pos < 14 || pos > 32 * 1024 then m == Moves(Corrupt(s), []) && Good(Corrupt(s)) && AtRest(p, Corrupt(s))
      else
        var t := s.(mine := s.mine.(buffer := b[pos + 4..]));
        Good(t) && m == TakeHeader(p.parse(b[..pos + 4]), t) && Good(m.to) && (m.to.mine.state.Corrupted? ==> AtRest(p, m.to))
  {
    hide Find, TakeHeader;
  }

  /** Header steps make no body calls. */
  lemma EventsAreFlat(p: Parser, s: Both)
    requires Good(s) && s.mine.state.WaitingForHeader? && Step(p, s).Moves?
    ensures Flat(Step(p, s).events) == Step(p, s).events
  {
    var events := Step(p, s).events;
    FlatOfOne(if |events| == 1 then events[0] else Close);
  }
}
