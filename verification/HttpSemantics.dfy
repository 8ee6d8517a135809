/** What one direction of an HTTP connection does with its bytes, in smallest steps. */
module HttpSemantics {
  import opened Bytes
  import opened Buffers

  type uint32 = n: int | 0 <= n < 0x1_0000_0000

  const CRLF: seq<byte> := [13, 10]
  const HEADER_END: seq<byte> := [13, 10, 13, 10]

  datatype Method = Get | Post | Head | ResponseMethod

  /** The parts of a header that decide how its body is framed. */
  datatype Header = Header(verb: Method, contentLength: Option<uint32>, chunked: bool, closes: bool, gzip: bool)

  /** A header object is there even when parsing failed. */
  datatype Parsed = Parsed(ok: bool, header: Header)

  /** Header parsing and the conversion of chunk sizes. */
  datatype Parser = Parser(parse: seq<byte> -> Parsed, hex: seq<byte> -> uint32)

  datatype State = WaitingForHeader | WaitingForContent | WaitingForUnknownContent
                 | WaitingForChunkSize | WaitingForChunkData | WaitingForChunkEnd | Corrupted

  datatype Dir = Dir(buffer: seq<byte>, header: Option<Header>, state: State, contentLength: uint32, chunkLength: uint32,
                     contentReceived: uint32, headerOnlyRequest: bool, isRequest: bool)

  /** The direction that bytes arrive on, and the other one. */
  datatype Both = Both(mine: Dir, other: Dir) {
    function With(more: seq<byte>): Both {
      this.(mine := mine.(buffer := mine.buffer + more))
    }
  }

  /** The calls made to the listeners. */
  datatype Event = Request(header: Header)
                 | Response(request: Header, header: Header)
                 | RequestTraffic(header: Header, data: seq<byte>)
                 | ResponseTraffic(request: Header, header: Header, data: seq<byte>)
                 | Done(header: Header)
                 | Close

  // ---- the state that can be reached ----

  predicate InBody(d: Dir) {
    !d.state.WaitingForHeader? && !d.state.Corrupted?
  }

  /** Within a message its header is there, and for a response that of the request. */
  predicate HeadersThere(d: Dir, other: Dir) {
    InBody(d) ==> d.header.Some? && (!d.isRequest ==> other.header.Some?)
  }

  predicate Counted(d: Dir) {
    match d.state
    case WaitingForContent => d.contentReceived <= d.contentLength
    case WaitingForChunkData => d.contentReceived <= d.chunkLength
    case WaitingForUnknownContent => true
    case Corrupted => true
    case _ => d.contentReceived == 0
  }

  predicate Good(s: Both) {
    && Counted(s.mine) && Counted(s.other)
    && HeadersThere(s.mine, s.other) && HeadersThere(s.other, s.mine)
  }

  // ---- smallest steps ----

  datatype Move = Stuck | Moves(to: Both, events: seq<Event>)

  /** Bytes left, and the steps possible without another byte. */
  function Rank(d: Dir): nat {
    3 * |d.buffer| + match d.state
      case Corrupted => 0
      case WaitingForContent => 2
      case WaitingForChunkData => 2
      case _ => 1
  }

  /** A step leads to another state that can be reached, and there are not endlessly many. */
  predicate Falls(s: Both, m: Move) {
    m.Moves? ==> Good(m.to) && Rank(m.to.mine) < Rank(s.mine) && |m.to.mine.buffer| <= |s.mine.buffer|
  }

  function Corrupt(s: Both): Both {
    Both(s.mine.(state := Corrupted), s.other.(state := Corrupted))
  }

  /** The header at the front of the buffer, once its end is there. */
  function HeaderStep(p: Parser, s: Both): (m: Move)
    requires Good(s) && s.mine.state.WaitingForHeader?
    ensures Falls(s, m)
  {
    var pos := Find(s.mine.buffer, HEADER_END);
    if pos == -1 then Stuck
    else if pos < 14 || pos > 32 * 1024 then Moves(Corrupt(s), [])
    else TakeHeader(p.parse(s.mine.buffer[..pos + 4]), s.(mine := s.mine.(buffer := s.mine.buffer[pos + 4..])))
  }

  function TakeHeader(parsed: Parsed, s: Both): (m: Move)
    requires Good(s) && s.mine.state.WaitingForHeader?
    ensures m.Moves? && Good(m.to) && m.to.mine.buffer == s.mine.buffer
  {
    var h, mine := parsed.header, s.mine.(header := Some(parsed.header));
    if !parsed.ok then Moves(Corrupt(s.(mine := mine)), [])
    else AcceptHeader(h, s.(mine := mine.(isRequest := !h.verb.ResponseMethod?)))
  }

  /** Without the compression library gzip content cannot be followed; nor can a response to a
    * request that was not seen. */
  function AcceptHeader(h: Header, s: Both): (m: Move)
    requires Good(s) && s.mine.state.WaitingForHeader? && s.mine.header == Some(h)
    ensures m.Moves? && Good(m.to) && m.to.mine.buffer == s.mine.buffer
  {
    if h.gzip then Moves(Corrupt(s), [])
    else if s.mine.isRequest then Moves(Proceed(h, s), [Request(h)])
    else if s.other.header.None? then Moves(Corrupt(s), [])
    else Moves(Proceed(h, s), [Response(s.other.header.value, h)])
  }

  function Proceed(h: Header, s: Both): (t: Both)
    requires Good(s) && s.mine.state.WaitingForHeader? && s.mine.header == Some(h)
    requires s.mine.isRequest || s.other.header.Some?
    ensures Good(t) && t.mine.buffer == s.mine.buffer
  {
    var mine := s.mine;
    Both(if mine.headerOnlyRequest then mine.(headerOnlyRequest := false, state := WaitingForHeader)
         else if h.contentLength.Some? then mine.(contentLength := h.contentLength.value, state := WaitingForContent)
         else if h.chunked then mine.(state := WaitingForChunkSize)
         else if h.closes then mine.(state := WaitingForUnknownContent)
         else mine.(state := WaitingForHeader),
         s.other.(headerOnlyRequest := h.verb.Head?))
  }

  /** Whether `n` more body bytes belong to the current content or chunk. */
  predicate Accepts(d: Dir, n: nat) {
    match d.state
    case WaitingForContent => d.contentReceived + n <= d.contentLength
    case WaitingForChunkData => d.contentReceived + n <= d.chunkLength
    case WaitingForUnknownContent => true
    case _ => false
  }

  function Advance(d: Dir, n: nat): Dir
    requires n <= |d.buffer|
  {
    d.(buffer := d.buffer[n..], contentReceived := (d.contentReceived + n) % UINT32)
  }

  function Traffic(s: Both, data: seq<byte>): Event
    requires InBody(s.mine) && HeadersThere(s.mine, s.other)
  {
    if s.mine.isRequest then RequestTraffic(s.mine.header.value, data)
    else ResponseTraffic(s.other.header.value, s.mine.header.value, data)
  }

  function BodyStep(s: Both): (m: Move)
    requires Good(s) && (Accepts(s.mine, 0) || s.mine.state.WaitingForUnknownContent?)
    ensures Falls(s, m)
  {
    var mine := s.mine;
    if Accepts(mine, 1) then
      if mine.buffer == [] then Stuck else Moves(s.(mine := Advance(mine, 1)), [Traffic(s, mine.buffer[..1])])
    else if mine.state.WaitingForContent? then
      Moves(s.(mine := mine.(contentLength := 0, contentReceived := 0, state := WaitingForHeader)), [Done(mine.header.value)])
    else
      Moves(s.(mine := mine.(contentReceived := 0, state := WaitingForChunkEnd)), [])
  }

  function ChunkSizeStep(p: Parser, s: Both): (m: Move)
    requires Good(s) && s.mine.state.WaitingForChunkSize?
    ensures Falls(s, m)
  {
    var mine, pos := s.mine, Find(s.mine.buffer, CRLF);
    if pos == -1 then Stuck
    else
      Moves(s.(mine := mine.(buffer := mine.buffer[pos + 2..], chunkLength := p.hex(mine.buffer[..pos]),
                             state := WaitingForChunkData)), [])
  }

  function ChunkEndStep(s: Both): (m: Move)
    requires Good(s) && s.mine.state.WaitingForChunkEnd?
    ensures Falls(s, m)
  {
    var mine := s.mine;
    if |mine.buffer| < 2 then Stuck
    else
      var next := mine.(buffer := mine.buffer[2..], chunkLength := 0, contentReceived := 0);
      if mine.chunkLength == 0
      then Moves(s.(mine := next.(state := WaitingForHeader)), [Done(mine.header.value)])
      else Moves(s.(mine := next.(state := WaitingForChunkSize)), [])
  }

  function Step(p: Parser, s: Both): (m: Move)
    requires Good(s)
    ensures Falls(s, m)
  {
    match s.mine.state
    case WaitingForHeader => HeaderStep(p, s)
    case WaitingForChunkSize => ChunkSizeStep(p, s)
    case WaitingForChunkEnd => ChunkEndStep(s)
    case Corrupted => Stuck
    case _ => BodyStep(s)
  }

  /** Where the steps end and what the listeners are told until then. */
  datatype Outcome = Outcome(final: Both, events: seq<Event>)

  function Run(p: Parser, s: Both): (o: Outcome)
    requires Good(s)
    ensures Good(o.final) && Step(p, o.final).Stuck?
    decreases Rank(s.mine)
  {
    match Step(p, s)
    case Stuck => Outcome(s, [])
    case Moves(next, events) =>
      var o := Run(p, next);
      Outcome(o.final, events + o.events)
  }

  // ---- cutting the bytes anywhere changes nothing ----

  lemma TakeHeaderMonotone(parsed: Parsed, s: Both, more: seq<byte>)
    requires Good(s) && s.mine.state.WaitingForHeader?
    ensures Good(s.With(more))
    ensures var m := TakeHeader(parsed, s);
      m.Moves? && TakeHeader(parsed, s.With(more)) == Moves(m.to.With(more), m.events)
  {
  }

  lemma HeaderStepMonotone(p: Parser, s: Both, more: seq<byte>)
    requires Good(s) && Good(s.With(more)) && s.mine.state.WaitingForHeader? && HeaderStep(p, s).Moves?
    ensures var m := HeaderStep(p, s); HeaderStep(p, s.With(more)) == Moves(m.to.With(more), m.events)
  {
    hide Find, TakeHeader;
    var b := s.mine.buffer;
    var pos := Find(b, HEADER_END);
    FindExtends(b, HEADER_END, more);
    if 14 <= pos <= 32 * 1024 {
      assert (b + more)[..pos + 4] == b[..pos + 4] && (b + more)[pos + 4..] == b[pos + 4..] + more;
      TakeHeaderMonotone(p.parse(b[..pos + 4]), s.(mine := s.mine.(buffer := b[pos + 4..])), more);
    }
  }

  lemma ChunkSizeStepMonotone(p: Parser, s: Both, more: seq<byte>)
    requires Good(s) && Good(s.With(more)) && s.mine.state.WaitingForChunkSize? && ChunkSizeStep(p, s).Moves?
    ensures var m := ChunkSizeStep(p, s); ChunkSizeStep(p, s.With(more)) == Moves(m.to.With(more), m.events)
  {
    hide Find;
    var b := s.mine.buffer;
    var pos := Find(b, CRLF);
    FindExtends(b, CRLF, more);
    assert (b + more)[..pos] == b[..pos] && (b + more)[pos + 2..] == b[pos + 2..] + more;
  }

  /** A step that is possible stays the same step when more bytes arrive. */
  lemma StepMonotone(p: Parser, s: Both, more: seq<byte>)
    requires Good(s) && Good(s.With(more)) && Step(p, s).Moves?
    ensures var m := Step(p, s); Step(p, s.With(more)) == Moves(m.to.With(more), m.events)
  {
    hide HeaderStep, ChunkSizeStep, Falls;
    var b := s.mine.buffer;
    match s.mine.state
    case WaitingForHeader => HeaderStepMonotone(p, s, more);
    case WaitingForChunkSize => ChunkSizeStepMonotone(p, s, more);
    case WaitingForChunkEnd => assert (b + more)[2..] == b[2..] + more;
    case Corrupted =>
    case _ =>
      if Accepts(s.mine, 1) {
        assert (b + more)[1..] == b[1..] + more && (b + more)[..1] == b[..1];
      }
  }

  lemma GoodWith(s: Both, more: seq<byte>)
    requires Good(s)
    ensures Good(s.With(more))
  {
  }

  /** Running on some bytes and then on more is running on all of them: the same calls in the
    * same order and the same final state of both directions. */
  lemma {:induction false} RunResumes(p: Parser, s: Both, more: seq<byte>)
    requires Good(s)
    ensures Good(s.With(more)) && Good(Run(p, s).final.With(more))
    ensures var first := Run(p, s); var second := Run(p, first.final.With(more));
      Run(p, s.With(more)) == Outcome(second.final, first.events + second.events)
    decreases Rank(s.mine)
  {
    hide Step, Good;
    GoodWith(s, more);
    GoodWith(Run(p, s).final, more);
    var m := Step(p, s);
    if m.Moves? {
      StepMonotone(p, s, more);
      RunResumes(p, m.to, more);
      var first := Run(p, m.to);
      var second := Run(p, first.final.With(more));
      assert m.events + (first.events + second.events) == (m.events + first.events) + second.events;
    }
  }

  // ---- runs from one state to another ----

  /** Going from `s` to `t` with these calls is on the way of the run from `s`. */
  ghost predicate Leads(p: Parser, s: Both, events: seq<Event>, t: Both) {
    && Good(s) && Good(t)
    && Run(p, s) == Outcome(Run(p, t).final, events + Run(p, t).events)
  }

  lemma LeadsOn(p: Parser, s: Both, a: seq<Event>, t: Both, b: seq<Event>, u: Both)
    requires Leads(p, s, a, t) && Leads(p, t, b, u)
    ensures Leads(p, s, a + b, u)
  {
    hide Run, Good;
    assert a + (b + Run(p, u).events) == (a + b) + Run(p, u).events;
  }

  lemma StepLeads(p: Parser, s: Both)
    requires Good(s) && Step(p, s).Moves?
    ensures Leads(p, s, Step(p, s).events, Step(p, s).to)
  {
    hide Step, Good;
  }

  /** Whole stretches of body bytes count as one call per byte. */
  function Single(e: Event): seq<Event> {
    match e
    case RequestTraffic(h, data) => seq(|data|, i requires 0 <= i < |data| => RequestTraffic(h, [data[i]]))
    case ResponseTraffic(r, h, data) => seq(|data|, i requires 0 <= i < |data| => ResponseTraffic(r, h, [data[i]]))
    case _ => [e]
  }

  function Flat(events: seq<Event>): seq<Event> {
    if events == [] then [] else Flat(events[..|events| - 1]) + Single(events[|events| - 1])
  }

  lemma {:induction false} FlatConcat(a: seq<Event>, b: seq<Event>)
    ensures Flat(a + b) == Flat(a) + Flat(b)
  {
    hide Single;
    if b == [] {
      assert a + b == a;
    } else {
      var init := b[..|b| - 1];
      assert (a + b)[..|a + b| - 1] == a + init;
      FlatConcat(a, init);
    }
  }

  /** Taking many body bytes at once is taking them one by one. */
  lemma {:induction false} BytesLead(p: Parser, s: Both, n: nat)
    requires Good(s) && n <= |s.mine.buffer| && Accepts(s.mine, n)
    ensures Leads(p, s, Single(Traffic(s, s.mine.buffer[..n])), s.(mine := Advance(s.mine, n)))
    decreases n
  {
    hide Run;
    if n == 0 {
      assert Advance(s.mine, 0) == s.mine by { assert s.mine.buffer[0..] == s.mine.buffer; }
      assert Single(Traffic(s, s.mine.buffer[..0])) == [];
    } else {
      var t := s.(mine := Advance(s.mine, 1));
      StepLeads(p, s);
      BytesLead(p, t, n - 1);
      JoinBytes(s, n);
      LeadsOn(p, s, [Traffic(s, s.mine.buffer[..1])], t, Single(Traffic(t, t.mine.buffer[..n - 1])),
              t.(mine := Advance(t.mine, n - 1)));
    }
  }

  lemma JoinBytes(s: Both, n: nat)
    requires Good(s) && 0 < n <= |s.mine.buffer| && Accepts(s.mine, n)
    ensures var t := s.(mine := Advance(s.mine, 1));
      && Accepts(t.mine, n - 1) && Good(t)
      && Single(Traffic(s, s.mine.buffer[..n])) == [Traffic(s, s.mine.buffer[..1])] + Single(Traffic(t, t.mine.buffer[..n - 1]))
      && Advance(t.mine, n - 1) == Advance(s.mine, n)
  {
    var b := s.mine.buffer;
    Slices(b, n);
    SingleSplit(s, b[..n]);
    hide Single;
    ModuloTwice(s.mine.contentReceived, n);
  }

  lemma Slices(b: seq<byte>, n: nat)
    requires 0 < n <= |b|
    ensures b[..n][..1] == b[..1] && b[..n][1..] == b[1..][..n - 1] && b[1..][n - 1..] == b[n..]
  {
  }

  lemma ModuloTwice(a: nat, n: nat)
    requires n > 0
    ensures ((a + 1) % UINT32 + (n - 1)) % UINT32 == (a + n) % UINT32
  {
    AddModulo(a + 1, n - 1);
  }

  lemma SingleSplit(s: Both, data: seq<byte>)
    requires InBody(s.mine) && HeadersThere(s.mine, s.other) && data != []
    ensures Single(Traffic(s, data)) == [Traffic(s, data[..1])] + Single(Traffic(s, data[1..]))
  {
    assert data[..1] == [data[0]];
  }
}
