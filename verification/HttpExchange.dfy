/** A whole connection: requests one way, responses the other, in any pieces. */
module HttpExchange {
  import opened Bytes
  import opened Buffers
  import opened HttpSemantics
  import opened HttpFraming
  import opened HttpDecoder

  /** Requests, in the pieces in which they arrive, and the responses that come next. */
  datatype Turn = Turn(requests: seq<Message>, sent: seq<seq<byte>>, responses: seq<Message>, answered: seq<seq<byte>>)

  function LastOf(ms: seq<Message>): Header
    requires ms != []
  {
    ms[|ms| - 1].header
  }

  predicate Proper(p: Parser, t: Turn) {
    && t.requests != [] && AllFramed(p, t.requests, true, false)
    && AllFramed(p, t.responses, false, LastOf(t.requests).verb.Head?)
    && Join(t.sent) == WriteAll(t.requests) && Join(t.answered) == WriteAll(t.responses)
    && |Join(t.sent)| < UINT31 && |Join(t.answered)| < UINT31
  }

  /** The request that the responses of a turn are taken to answer: the last one. */
  function Asked(t: Turn): Option<Header> { if t.requests == [] then None else Some(LastOf(t.requests)) }

  /** What the listeners should hear. */
  function Conversation(turns: seq<Turn>): seq<Event> {
    if turns == [] then []
    else
      var t := turns[|turns| - 1];
      Conversation(turns[..|turns| - 1]) + (AllHeard(t.requests, None) + AllHeard(t.responses, Asked(t)))
  }

  /** A body that goes on until the connection is closed ends the conversation in its direction. */
  predicate GoesOn(t: Turn) {
    !EndsEndless(t.requests) && !EndsEndless(t.responses)
  }

  /** Nothing is left in either buffer. */
  ghost predicate NothingLeft(d: HttpDecoder)
    reads d, d.inn, d.out, d.inn.buffer, d.out.buffer, d.inn.buffer.bufData, d.out.buffer.bufData
  {
    d.Valid() && d.Seen(true).mine.buffer == [] && d.Seen(false).mine.buffer == []
  }

  /** Between two turns both directions wait for a header. */
  ghost predicate BetweenTurns(d: HttpDecoder)
    reads d, d.inn, d.out, d.inn.buffer, d.out.buffer, d.inn.buffer.bufData, d.out.buffer.bufData
  {
    && NothingLeft(d)
    && Idle(d.Seen(true), true, false) && d.Seen(false).mine.state.WaitingForHeader?
  }

  /** A whole connection: any number of turns, of which the last may have bodies without end, then
    * the close. The listeners hear every header, every body byte and the end of each message exactly
    * as they were written, and nothing else, also of answers to HEAD. */
  method Exchange(parser: Parser, turns: seq<Turn>) returns (trace: seq<Event>)
    requires forall i | 0 <= i < |turns| :: Proper(parser, turns[i]) && (i + 1 < |turns| ==> GoesOn(turns[i]))
    ensures Flat(trace) == Conversation(turns) + [Close]
  {
    hide Find, Flat, Run, Step, Proper, Idle, BetweenTurns;
    var decoder := new HttpDecoder(parser);
    NothingYet(decoder);
    for i := 0 to |turns|
      invariant decoder.parser == parser && fresh(decoder) && fresh(decoder.inn) && fresh(decoder.out)
      invariant fresh(decoder.inn.buffer) && fresh(decoder.out.buffer)
      invariant fresh(decoder.inn.buffer.bufData) && fresh(decoder.out.buffer.bufData)
      invariant NothingLeft(decoder) && (i < |turns| ==> BetweenTurns(decoder))
      invariant Flat(decoder.trace) == Conversation(turns[..i])
    {
      NextTurn(turns, i);
      OneTurn(decoder, turns[i]);
    }
    assert turns[..|turns|] == turns;
    decoder.OnClose();
    trace := decoder.trace;
  }

  lemma NothingYet(d: HttpDecoder)
    requires d.Valid() && ViewBoth(d.inn, d.out) == Both(NewDir(), NewDir()) && d.trace == []
    ensures BetweenTurns(d) && Flat(d.trace) == []
  {
  }

  lemma NextTurn(turns: seq<Turn>, i: nat)
    requires i < |turns|
    ensures var t := turns[i];
      Conversation(turns[..i + 1]) == Conversation(turns[..i]) + (AllHeard(t.requests, None) + AllHeard(t.responses, Asked(t)))
  {
    assert turns[..i + 1][..i] == turns[..i];
  }

  /** No response is a HEAD request. */
  lemma {:induction false} LastIsResponse(p: Parser, ms: seq<Message>, headOnly: bool)
    requires AllFramed(p, ms, false, headOnly) && ms != []
    ensures !LastOf(ms).verb.Head?
  {
    if |ms| > 1 { LastIsResponse(p, ms[1..], false); }
  }

  method OneTurn(decoder: HttpDecoder, t: Turn)
    requires BetweenTurns(decoder) && Proper(decoder.parser, t)
    modifies decoder`trace, decoder.inn, decoder.inn.buffer, decoder.inn.buffer.bufData
    modifies decoder.out, decoder.out.buffer, decoder.out.buffer.bufData
    ensures NothingLeft(decoder) && (GoesOn(t) ==> BetweenTurns(decoder))
    ensures decoder.inn.buffer.bufData == old(decoder.inn.buffer.bufData) || fresh(decoder.inn.buffer.bufData)
    ensures decoder.out.buffer.bufData == old(decoder.out.buffer.bufData) || fresh(decoder.out.buffer.bufData)
    ensures Flat(decoder.trace) == old(Flat(decoder.trace))
      + (AllHeard(t.requests, None) + AllHeard(t.responses, Asked(t)))
  {
    hide Find, Flat, Run, Step, AllFramed, WriteAll, AllHeard, Join;
    ghost var p, start := decoder.parser, decoder.Seen(true);
    assert [] + Join(t.sent) == Join(t.sent) && [] + Join(t.answered) == Join(t.answered);
    MessagesComeOut(p, start.With(Join(t.sent)), t.requests, true, false);
    decoder.OnPieces(true, t.sent);
    ghost var middle := decoder.Seen(false);
    MessagesComeOut(p, middle.With(Join(t.answered)), t.responses, false, LastOf(t.requests).verb.Head?);
    decoder.OnPieces(false, t.answered);
    if t.responses != [] { LastIsResponse(p, t.responses, LastOf(t.requests).verb.Head?); }
    assert Flat(decoder.trace) == old(Flat(decoder.trace)) + AllHeard(t.requests, None) + AllHeard(t.responses, Asked(t));
  }
}
