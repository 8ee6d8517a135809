/** Messages come out as they went in, however their bodies are framed. */
module HttpFraming {
  import opened Bytes
  import opened Buffers
  import opened HttpSemantics

  /** One chunk with its size as written. */
  datatype Chunk = Chunk(size: seq<byte>, data: seq<byte>)

  /** `head` is the header as written, with the empty line that ends it. An endless body goes on until
    * the connection is closed. */
  datatype Message = Sized(head: seq<byte>, header: Header, body: seq<byte>)
                   | Chunked(head: seq<byte>, header: Header, chunks: seq<Chunk>, last: seq<byte>)
                   | Bare(head: seq<byte>, header: Header)
                   | Endless(head: seq<byte>, header: Header, body: seq<byte>)

  function WriteChunks(chunks: seq<Chunk>, rest: seq<byte>): seq<byte> {
    if chunks == [] then rest
    else chunks[0].size + (CRLF + (chunks[0].data + (CRLF + WriteChunks(chunks[1..], rest))))
  }

  /** The message followed by other bytes. */
  function Write(m: Message, rest: seq<byte>): seq<byte> {
    match m
    case Sized(head, _, body) => head + (body + rest)
    case Chunked(head, _, chunks, last) => head + WriteChunks(chunks, last + (CRLF + (CRLF + rest)))
    case Bare(head, _) => head + rest
    case Endless(head, _, body) => head + (body + rest)
  }

  function WriteAll(ms: seq<Message>): seq<byte> {
    if ms == [] then [] else Write(ms[0], WriteAll(ms[1..]))
  }

  function ChunkData(chunks: seq<Chunk>): seq<byte> {
    if chunks == [] then [] else chunks[0].data + ChunkData(chunks[1..])
  }

  function Body(m: Message): seq<byte> {
    match m
    case Sized(_, _, body) => body
    case Chunked(_, _, chunks, _) => ChunkData(chunks)
    case Bare(_, _) => []
    case Endless(_, _, body) => body
  }

  /** A size line that ends at its own line break and stands for that many bytes. */
  predicate SizeLine(p: Parser, size: seq<byte>, n: nat) {
    Find(size + CRLF, CRLF) == |size| && p.hex(size) == n
  }

  /** A header that is accepted, of the direction's kind. */
  predicate Accepted(p: Parser, head: seq<byte>, header: Header, request: bool) {
    && 18 <= |head| <= 32 * 1024 + 4 && Find(head, HEADER_END) == |head| - 4
    && p.parse(head) == Parsed(true, header) && !header.gzip && request == !header.verb.ResponseMethod?
  }

  /** A message whose framing is what its header says; the answer to a HEAD request ends with its
    * header, whatever that says. */
  predicate WellFramed(p: Parser, m: Message, request: bool, headOnly: bool) {
    && Accepted(p, m.head, m.header, request) && (headOnly ==> m.Bare?)
    && match m
       case Sized(_, h, body) => h.contentLength.Some? && h.contentLength.value == |body|
       case Chunked(_, h, chunks, last) =>
         h.contentLength.None? && h.chunked && SizeLine(p, last, 0)
         && forall i | 0 <= i < |chunks| :: chunks[i].data != [] && SizeLine(p, chunks[i].size, |chunks[i].data|)
       case Bare(_, h) => headOnly || (h.contentLength.None? && !h.chunked && !h.closes)
       case Endless(_, h, _) => h.contentLength.None? && !h.chunked && h.closes
  }

  /** Messages of one direction; only the first can be the answer to a HEAD request that came
    * last before them, and only the last can be endless. */
  predicate AllFramed(p: Parser, ms: seq<Message>, request: bool, headOnly: bool) {
    ms != [] ==>
      && WellFramed(p, ms[0], request, headOnly) && (ms[0].Endless? ==> |ms| == 1)
      && AllFramed(p, ms[1..], request, false)
  }

  predicate EndsEndless(ms: seq<Message>) {
    ms != [] && ms[|ms| - 1].Endless?
  }

  // ---- what the listeners should hear ----

  function Start(h: Header, request: Option<Header>): Event {
    if request.None? then Request(h) else Response(request.value, h)
  }

  function BodyEvents(h: Header, request: Option<Header>, body: seq<byte>): seq<Event> {
    Single(if request.None? then RequestTraffic(h, body) else ResponseTraffic(request.value, h, body))
  }

  /** The header, every byte of the body, and the end of a message whose body has one. */
  function Heard(m: Message, request: Option<Header>): seq<Event> {
    [Start(m.header, request)] + BodyEvents(m.header, request, Body(m))
    + if m.Bare? || m.Endless? then [] else [Done(m.header)]
  }

  function AllHeard(ms: seq<Message>, request: Option<Header>): seq<Event> {
    if ms == [] then [] else Heard(ms[0], request) + AllHeard(ms[1..], request)
  }

  /** The request that the messages of a direction answer, if they are responses. */
  function Answers(s: Both, request: bool): Option<Header> {
    if request then None else s.other.header
  }

  // ---- the proof ----

  /** Between two messages. */
  predicate Idle(s: Both, request: bool, headOnly: bool) {
    && Good(s) && s.mine.state.WaitingForHeader? && s.mine.headerOnlyRequest == headOnly
    && (request || s.other.header.Some?)
  }

  /** Within a message, after its header. */
  predicate Within(s: Both, h: Header, request: bool) {
    && Good(s) && s.mine.header == Some(h) && s.mine.isRequest == request && !s.mine.headerOnlyRequest
    && (request || s.other.header.Some?)
  }

  lemma HeaderLeads(p: Parser, s: Both, head: seq<byte>, h: Header, request: bool, headOnly: bool, rest: seq<byte>)
    returns (t: Both)
    requires Idle(s, request, headOnly) && Accepted(p, head, h, request) && s.mine.buffer == head + rest
    ensures Leads(p, s, [Start(h, Answers(s, request))], t)
    ensures t.mine.buffer == rest && Within(t, h, request) && Answers(t, request) == Answers(s, request)
    ensures t.other == s.other.(headerOnlyRequest := h.verb.Head?)
    ensures headOnly ==> t.mine.state.WaitingForHeader?
    ensures !headOnly && h.contentLength.Some? ==> t.mine.state.WaitingForContent? && t.mine.contentLength == h.contentLength.value
    ensures !headOnly && h.contentLength.None? ==>
      if h.chunked then t.mine.state.WaitingForChunkSize?
      else if h.closes then t.mine.state.WaitingForUnknownContent? else t.mine.state.WaitingForHeader?
    ensures t.mine.contentReceived == 0
  {
    hide Run, Find;
    FindExtends(head, HEADER_END, rest);
    assert s.mine.buffer[..|head|] == head && s.mine.buffer[|head|..] == rest;
    StepLeads(p, s);
    t := Step(p, s).to;
  }

  lemma BodyEventsAre(s: Both, h: Header, request: bool, data: seq<byte>)
    requires Within(s, h, request) && InBody(s.mine)
    ensures Single(Traffic(s, data)) == BodyEvents(h, Answers(s, request), data)
  {
  }

  lemma BodyEventsConcat(h: Header, request: Option<Header>, a: seq<byte>, b: seq<byte>)
    ensures BodyEvents(h, request, a + b) == BodyEvents(h, request, a) + BodyEvents(h, request, b)
    ensures BodyEvents(h, request, []) == []
  {
  }

  lemma ContentLeads(p: Parser, s: Both, h: Header, request: bool, body: seq<byte>, rest: seq<byte>)
    requires Within(s, h, request) && s.mine.state.WaitingForContent?
    requires s.mine.contentReceived == 0 && s.mine.contentLength == |body| && s.mine.buffer == body + rest
    ensures var t := s.(mine := s.mine.(buffer := rest, contentLength := 0, state := WaitingForHeader));
      Leads(p, s, BodyEvents(h, Answers(s, request), body) + [Done(h)], t)
  {
    hide Run;
    var n := |body|;
    assert s.mine.buffer[..n] == body && s.mine.buffer[n..] == rest;
    BytesLead(p, s, n);
    BodyEventsAre(s, h, request, body);
    var u := s.(mine := Advance(s.mine, n));
    StepLeads(p, u);
    LeadsOn(p, s, Single(Traffic(s, body)), u, [Done(h)], Step(p, u).to);
  }

  /** The size line, then the data up to the line break behind it. */
  lemma ChunkLeads(p: Parser, s: Both, h: Header, request: bool, size: seq<byte>, data: seq<byte>, rest: seq<byte>)
    requires Within(s, h, request) && s.mine.state.WaitingForChunkSize? && SizeLine(p, size, |data|)
    requires s.mine.buffer == size + (CRLF + (data + (CRLF + rest)))
    ensures var t := s.(mine := s.mine.(buffer := CRLF + rest, chunkLength := |data|, state := WaitingForChunkEnd));
      Leads(p, s, BodyEvents(h, Answers(s, request), data), t)
  {
    hide Run, Find, BodyEvents;
    var b, tail := s.mine.buffer, data + (CRLF + rest);
    FindExtends(size + CRLF, CRLF, tail);
    assert b == (size + CRLF) + tail;
    assert b[..|size|] == size && b[|size| + 2..] == tail;
    var t1 := s.(mine := s.mine.(buffer := tail, chunkLength := |data|, state := WaitingForChunkData));
    StepLeads(p, s);
    assert Leads(p, s, [], t1);
    assert tail[..|data|] == data && tail[|data|..] == CRLF + rest;
    BytesLead(p, t1, |data|);
    BodyEventsAre(t1, h, request, data);
    var t2 := t1.(mine := Advance(t1.mine, |data|));
    StepLeads(p, t2);
    LeadsOn(p, s, [], t1, Single(Traffic(t1, data)), t2);
    LeadsOn(p, s, [] + Single(Traffic(t1, data)), t2, [], Step(p, t2).to);
    assert [] + Single(Traffic(t1, data)) + [] == Single(Traffic(t1, data));
  }

  lemma ChunkEndLeads(p: Parser, s: Both, h: Header, request: bool, rest: seq<byte>)
    requires Within(s, h, request) && s.mine.state.WaitingForChunkEnd? && s.mine.buffer == CRLF + rest
    ensures var last := s.mine.chunkLength == 0;
      Leads(p, s, if last then [Done(h)] else [],
            s.(mine := s.mine.(buffer := rest, chunkLength := 0, state := if last then WaitingForHeader else WaitingForChunkSize)))
  {
    hide Run;
    assert (CRLF + rest)[2..] == rest;
    StepLeads(p, s);
  }

  lemma {:induction false} ChunksLead(p: Parser, s: Both, h: Header, request: bool, chunks: seq<Chunk>, last: seq<byte>, rest: seq<byte>)
    returns (t: Both)
    requires Within(s, h, request) && s.mine.state.WaitingForChunkSize? && SizeLine(p, last, 0)
    requires forall i | 0 <= i < |chunks| :: chunks[i].data != [] && SizeLine(p, chunks[i].size, |chunks[i].data|)
    requires s.mine.buffer == WriteChunks(chunks, last + (CRLF + (CRLF + rest)))
    ensures t.mine.buffer == rest && t.mine.state.WaitingForHeader? && Within(t, h, request) && t.other == s.other
    ensures Leads(p, s, BodyEvents(h, Answers(s, request), ChunkData(chunks)) + [Done(h)], t)
    decreases |chunks|
  {
    hide Run, Find, BodyEvents, Leads;
    var r := Answers(s, request);
    var size, data, more := last, [], rest;
    if chunks != [] {
      size, data := chunks[0].size, chunks[0].data;
      more := WriteChunks(chunks[1..], last + (CRLF + (CRLF + rest)));
    }
    assert [] + (CRLF + rest) == CRLF + rest;
    ChunkLeads(p, s, h, request, size, data, more);
    var t1 := s.(mine := s.mine.(buffer := CRLF + more, chunkLength := |data|, state := WaitingForChunkEnd));
    ChunkEndLeads(p, t1, h, request, more);
    if chunks == [] {
      var t2 := t1.(mine := t1.mine.(buffer := rest, chunkLength := 0, state := WaitingForHeader));
      LeadsOn(p, s, BodyEvents(h, r, []), t1, [Done(h)], t2);
      t := t2;
    } else {
      var t2 := t1.(mine := t1.mine.(buffer := more, chunkLength := 0, state := WaitingForChunkSize));
      LeadsOn(p, s, BodyEvents(h, r, data), t1, [], t2);
      t := ChunksLead(p, t2, h, request, chunks[1..], last, rest);
      LeadsOn(p, s, BodyEvents(h, r, data) + [], t2, BodyEvents(h, r, ChunkData(chunks[1..])) + [Done(h)], t);
      BodyEventsConcat(h, r, data, ChunkData(chunks[1..]));
      Regroup(BodyEvents(h, r, data), BodyEvents(h, r, ChunkData(chunks[1..])), [Done(h)]);
    }
  }

  lemma Regroup(a: seq<Event>, b: seq<Event>, c: seq<Event>)
    ensures (a + []) + (b + c) == (a + b) + c && a + (b + c) == (a + b) + c && a + ([] + []) == a
  {
  }

  /** One message is consumed and reported whole, and the direction waits for the next. */
  lemma MessageLeads(p: Parser, s: Both, m: Message, request: bool, headOnly: bool, rest: seq<byte>) returns (u: Both)
    requires !m.Endless? && Idle(s, request, headOnly) && WellFramed(p, m, request, headOnly) && s.mine.buffer == Write(m, rest)
    ensures u.mine.buffer == rest && Idle(u, request, false) && Answers(u, request) == Answers(s, request)
    ensures u.mine.header == Some(m.header) && u.other == s.other.(headerOnlyRequest := m.header.verb.Head?)
    ensures Leads(p, s, Heard(m, Answers(s, request)), u)
  {
    hide Run, Find, BodyEvents, Leads, SizeLine, WriteChunks, Accepted, Step;
    var h, r, start := m.header, Answers(s, request), [Start(m.header, Answers(s, request))];
    match m
    case Bare(head, _) =>
      u := HeaderLeads(p, s, head, h, request, headOnly, rest);
      BodyEventsConcat(h, r, [], []);
      Regroup(start, [], []);
    case Sized(head, _, body) =>
      var t := HeaderLeads(p, s, head, h, request, headOnly, body + rest);
      ContentLeads(p, t, h, request, body, rest);
      u := t.(mine := t.mine.(buffer := rest, contentLength := 0, state := WaitingForHeader));
      LeadsOn(p, s, start, t, BodyEvents(h, r, body) + [Done(h)], u);
      Regroup(start, BodyEvents(h, r, body), [Done(h)]);
    case Chunked(head, _, chunks, last) =>
      var t := HeaderLeads(p, s, head, h, request, headOnly, WriteChunks(chunks, last + (CRLF + (CRLF + rest))));
      u := ChunksLead(p, t, h, request, chunks, last, rest);
      LeadsOn(p, s, start, t, BodyEvents(h, r, ChunkData(chunks)) + [Done(h)], u);
      Regroup(start, BodyEvents(h, r, ChunkData(chunks)), [Done(h)]);
  }

  /** Every byte behind the header of an endless message is reported as its body, and its end never. */
  lemma EndlessComesOut(p: Parser, s: Both, m: Message, request: bool)
    requires m.Endless? && Idle(s, request, false) && WellFramed(p, m, request, false) && s.mine.buffer == Write(m, [])
    ensures var o := Run(p, s);
      && o.events == Heard(m, Answers(s, request)) && o.final.mine.buffer == []
      && o.final.mine.state.WaitingForUnknownContent? && o.final.mine.header == Some(m.header)
      && o.final.other == s.other.(headerOnlyRequest := m.header.verb.Head?)
  {
    hide Run, Find, BodyEvents, Accepted, Step;
    var h, r, start, n := m.header, Answers(s, request), [Start(m.header, Answers(s, request))], |m.body|;
    assert m.body + [] == m.body;
    var t := HeaderLeads(p, s, m.head, h, request, false, m.body);
    assert m.body[..n] == m.body && m.body[n..] == [];
    BytesLead(p, t, n);
    BodyEventsAre(t, h, request, m.body);
    var u := t.(mine := Advance(t.mine, n));
    LeadsOn(p, s, start, t, BodyEvents(h, r, m.body), u);
    WaitsForMore(p, u);
    Regroup(start, BodyEvents(h, r, m.body), []);
    assert start + BodyEvents(h, r, m.body) + [] == start + BodyEvents(h, r, m.body);
  }

  lemma WaitsForMore(p: Parser, s: Both)
    requires Good(s) && s.mine.state.WaitingForUnknownContent? && s.mine.buffer == []
    ensures Run(p, s) == Outcome(s, [])
  {
  }

  /** Any list of accepted messages is reported exactly: every header, every body byte, one end
    * per message whose body has one, and nothing is left over. */
  lemma {:induction false} MessagesComeOut(p: Parser, s: Both, ms: seq<Message>, request: bool, headOnly: bool)
    requires Idle(s, request, headOnly) && s.mine.buffer == WriteAll(ms) && AllFramed(p, ms, request, headOnly)
    decreases |ms|
    ensures var o := Run(p, s);
      && o.events == AllHeard(ms, Answers(s, request)) && o.final.mine.buffer == []
      && (if EndsEndless(ms) then o.final.mine.state.WaitingForUnknownContent? else Idle(o.final, request, headOnly && ms == []))
      && (ms == [] ==> o.final == s)
      && (ms != [] ==>
        var h := ms[|ms| - 1].header;
        o.final.mine.header == Some(h) && o.final.other == s.other.(headerOnlyRequest := h.verb.Head?))
  {
    hide Find, WellFramed, Write, Heard, Run, Idle;
    if ms == [] {
      NothingComes(p, s, request, headOnly);
    } else if ms[0].Endless? {
      EndlessIsAlone(p, ms, request, headOnly);
      EndlessComesOut(p, s, ms[0], request);
    } else {
      var t := MessageLeads(p, s, ms[0], request, headOnly, WriteAll(ms[1..]));
      MessagesComeOut(p, t, ms[1..], request, false);
    }
  }

  lemma EndlessIsAlone(p: Parser, ms: seq<Message>, request: bool, headOnly: bool)
    requires ms != [] && ms[0].Endless? && AllFramed(p, ms, request, headOnly)
    ensures !headOnly && WriteAll(ms) == Write(ms[0], []) && |ms| == 1
    ensures forall r :: AllHeard(ms, r) == Heard(ms[0], r)
  {
    hide Heard;
    assert ms[1..] == [];
    forall r ensures AllHeard(ms, r) == Heard(ms[0], r) {
      assert Heard(ms[0], r) + [] == Heard(ms[0], r);
    }
  }

  lemma NothingComes(p: Parser, s: Both, request: bool, headOnly: bool)
    requires Idle(s, request, headOnly) && s.mine.buffer == []
    ensures Run(p, s) == Outcome(s, [])
  {
  }

  // ---- headers that are refused ----

  /** A header of usual size that can be parsed, without gzip, of a request or of the answer to one. */
  predicate Acceptable(p: Parser, head: seq<byte>, request: Option<Header>) {
    && 18 <= |head| <= 32 * 1024 + 4
    && var parsed := p.parse(head);
       parsed.ok && !parsed.header.gzip && (parsed.header.verb.ResponseMethod? ==> request.Some?)
  }

  /** Exactly all other headers end the decoding of both directions: nothing is reported of them, nor
    * of anything that comes later. */
  lemma RefusedExactly(p: Parser, s: Both, head: seq<byte>, rest: seq<byte>)
    requires Good(s) && s.mine.state.WaitingForHeader? && s.mine.buffer == head + rest && |head| >= 4
    requires Find(head, HEADER_END) == |head| - 4
    ensures var m := Step(p, s);
      && m.Moves? && (m.to.mine.state.Corrupted? <==> !Acceptable(p, head, s.other.header))
      && (m.to.mine.state.Corrupted? ==> m.to.other.state.Corrupted? && Run(p, s) == Outcome(m.to, []))
  {
    hide Run, Find;
    RefusedStep(p, s, head, rest);
    StepLeads(p, s);
    hide Step, HeaderStep;
    var m := Step(p, s);
    if m.to.mine.state.Corrupted? {
      Silent(p, m.to, []);
      assert m.to.With([]) == m.to by { assert m.to.mine.buffer + [] == m.to.mine.buffer; }
    }
  }

  lemma RefusedStep(p: Parser, s: Both, head: seq<byte>, rest: seq<byte>)
    requires Good(s) && s.mine.state.WaitingForHeader? && s.mine.buffer == head + rest && |head| >= 4
    requires Find(head, HEADER_END) == |head| - 4
    ensures var m := Step(p, s);
      && m.Moves? && (m.to.mine.state.Corrupted? <==> !Acceptable(p, head, s.other.header))
      && (m.to.mine.state.Corrupted? ==> m.to.other.state.Corrupted? && m.events == [])
  {
    hide Run, Find, Counted;
    FindExtends(head, HEADER_END, rest);
    assert s.mine.buffer[..|head|] == head && s.mine.buffer[|head|..] == rest;
  }

  lemma Silent(p: Parser, s: Both, more: seq<byte>)
    requires Good(s) && s.mine.state.Corrupted?
    ensures Good(s.With(more)) && Run(p, s.With(more)) == Outcome(s.With(more), [])
  {
  }
}
