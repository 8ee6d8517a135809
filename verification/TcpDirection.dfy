/** One direction of a TCP stream: segments in, ordered data out. */
module TcpDirection {
  import opened Bytes

  const TCP_SEQ_BUFFER_SIZE := 64

  datatype Segment = Segment(seqNumber: nat, data: seq<byte>)

  // ---- the segment buffer ----

  /** The oldest buffered segment with that number, or -1. */
  function IndexOf(buffer: seq<Segment>, n: nat): (i: int)
    ensures -1 <= i < |buffer|
    ensures i >= 0 ==> buffer[i].seqNumber == n
    ensures forall k | 0 <= k < |buffer| && (i == -1 || k < i) :: buffer[k].seqNumber != n
  {
    if buffer == [] then -1
    else if buffer[0].seqNumber == n then 0
    else
      var i := IndexOf(buffer[1..], n);
      assert forall k | 1 <= k < |buffer| :: buffer[k] == buffer[1..][k - 1];
      if i == -1 then -1 else i + 1
  }

  function Without(buffer: seq<Segment>, i: nat): (r: seq<Segment>)
    requires i < |buffer|
    ensures |r| == |buffer| - 1 && multiset(r) + multiset{buffer[i]} == multiset(buffer)
  {
    assert buffer == buffer[..i] + [buffer[i]] + buffer[i + 1..];
    buffer[..i] + buffer[i + 1..]
  }

  class TcpSeqBuffer {
    var buffer: seq<Segment>

    constructor (buffer: seq<Segment>)
      ensures this.buffer == buffer
    {
      this.buffer := buffer;
    }

    predicate IsFull()
      reads this
    {
      |buffer| >= TCP_SEQ_BUFFER_SIZE
    }

    /** Takes out the oldest segment with that number. */
    method Get(seqNumber: nat) returns (segment: Option<Segment>)
      modifies this
      ensures var i := IndexOf(old(buffer), seqNumber);
        if i == -1 then segment == None && buffer == old(buffer)
        else segment == Some(old(buffer)[i]) && buffer == Without(old(buffer), i)
    {
      if buffer == [] { return None; }
      var it := 0;
      while it != |buffer|
        invariant 0 <= it <= |buffer| && buffer == old(buffer)
        invariant forall k | 0 <= k < it :: buffer[k].seqNumber != seqNumber
      {
        if buffer[it].seqNumber == seqNumber {
          segment := Some(buffer[it]);
          buffer := buffer[..it] + buffer[it + 1..];
          return;
        }
        it := it + 1;
      }
      return None;
    }

    method Append(seqNumber: nat, data: seq<byte>)
      modifies this
      ensures buffer == old(buffer) + [Segment(seqNumber, data)]
    {
      buffer := buffer + [Segment(seqNumber, data)];
    }
  }

  // ---- what reassembly does ----

  datatype Dir = Dir(next: nat, buffer: seq<Segment>)

  /** `data` is what the listener is given, one entry per call; `ok` is false when the buffer
    * was full and the connection has to be closed. */
  datatype Result = Result(dir: Dir, data: seq<seq<byte>>, ok: bool)

  /** Behind taking out the i-th buffered segment. The code leaves the expected number as it
    * is; with `advance` it moves on behind the segment. */
  function Behind(advance: bool, d: Dir, i: nat): Dir
    requires i < |d.buffer|
  {
    Dir(if advance then (d.next + |d.buffer[i].data|) % UINT32 else d.next, Without(d.buffer, i))
  }

  /** Hands over buffered segments for as long as one has the expected number. */
  function Drain(advance: bool, d: Dir): (r: Result)
    ensures r.ok && |r.dir.buffer| + |r.data| == |d.buffer|
    decreases |d.buffer|
  {
    var i := IndexOf(d.buffer, d.next);
    if i == -1 then Result(d, [], true)
    else
      var r := Drain(advance, Behind(advance, d, i));
      Result(r.dir, [d.buffer[i].data] + r.data, true)
  }

  function Reassembled(advance: bool, d: Dir, seqNumber: nat, payload: seq<byte>): Result {
    if d.next == seqNumber then
      var r := Drain(advance, d.(next := (d.next + |payload|) % UINT32));
      Result(r.dir, [payload] + r.data, true)
    else if d.next > seqNumber then Result(d, [], true)
    else if |d.buffer| >= TCP_SEQ_BUFFER_SIZE then Result(d, [], false)
    else Result(d.(buffer := d.buffer + [Segment(seqNumber, payload)]), [], true)
  }

  class TcpStreamDirection {
    var nextSeqNumber: nat
    const buffer: TcpSeqBuffer

    constructor (d: Dir)
      ensures View() == d && fresh(buffer)
    {
      nextSeqNumber := d.next;
      buffer := new TcpSeqBuffer(d.buffer);
    }

    function View(): Dir
      reads this, buffer
    {
      Dir(nextSeqNumber, buffer.buffer)
    }

    /** Takes one segment; `data` is what the listener is told. */
    method ReAssemble(advance: bool, seqNumber: nat, payload: seq<byte>) returns (data: seq<seq<byte>>, ok: bool)
      modifies this, buffer
      ensures Result(View(), data, ok) == Reassembled(advance, old(View()), seqNumber, payload)
    {
      hide Drain;
      data := [];
      if nextSeqNumber == seqNumber {
        nextSeqNumber := (nextSeqNumber + |payload|) % UINT32;
        var drained := DrainBuffer(advance);
        data := [payload] + drained;
        ok := true;
      } else {
        if nextSeqNumber > seqNumber { return data, true; }
        if buffer.IsFull() { return data, false; }
        buffer.Append(seqNumber, payload);
        ok := true;
      }
    }

    method DrainBuffer(advance: bool) returns (data: seq<seq<byte>>)
      modifies this, buffer
      ensures Result(View(), data, true) == Drain(advance, old(View()))
    {
      hide Without, IndexOf, Drain;
      data := [];
      ghost var whole := Drain(advance, View());
      assert [] + whole.data == whole.data;
      var more := true;
      while more
        invariant Drain(advance, View()).dir == whole.dir && data + Drain(advance, View()).data == whole.data
        invariant !more ==> IndexOf(View().buffer, View().next) == -1
        decreases |buffer.buffer|, more
      {
        ghost var d, given := View(), data;
        DrainUnfolds(advance, d);
        var segment := buffer.Get(nextSeqNumber);
        if segment.Some? {
          data := data + [segment.value.data];
          if advance { nextSeqNumber := (nextSeqNumber + |segment.value.data|) % UINT32; }
          assert View() == Behind(advance, d, IndexOf(d.buffer, d.next));
          Regroup(given, segment.value.data, Drain(advance, View()).data);
        } else {
          more := false;
        }
      }
      DrainUnfolds(advance, View());
      assert data + [] == data;
    }
  }

  lemma DrainUnfolds(advance: bool, d: Dir)
    ensures var i := IndexOf(d.buffer, d.next);
      Drain(advance, d) ==
      if i == -1 then Result(d, [], true)
      else var r := Drain(advance, Behind(advance, d, i)); Result(r.dir, [d.buffer[i].data] + r.data, true)
  {
    hide IndexOf, Without;
  }

  lemma Regroup<T>(a: seq<T>, x: T, b: seq<T>)
    ensures a + ([x] + b) == a + [x] + b
  {
  }

  // ---- what the listener has been given is a part of the stream ----

  function Joined(data: seq<seq<byte>>): seq<byte> {
    if data == [] then [] else data[0] + Joined(data[1..])
  }

  lemma {:induction false} JoinedConcat(a: seq<seq<byte>>, b: seq<seq<byte>>)
    ensures Joined(a + b) == Joined(a) + Joined(b)
  {
    if a == [] {
      assert a + b == b;
    } else {
      assert (a + b)[1..] == a[1..] + b;
      JoinedConcat(a[1..], b);
    }
  }

  /** The sender's byte stream and the number of its first byte; no number wraps. */
  datatype ByteStream = ByteStream(base: nat, bytes: seq<byte>) {
    predicate Valid() { base + |bytes| < UINT32 }

    /** A piece of the stream at its place. */
    ghost predicate Contains(s: Segment) {
      s.data != [] && base <= s.seqNumber && Has(bytes, s.seqNumber - base, s.data)
    }
  }

  /** A direction that only ever saw pieces of the stream. */
  ghost predicate Follows(d: Dir, s: ByteStream) {
    && s.Valid() && s.base <= d.next <= s.base + |s.bytes|
    && forall x | x in d.buffer :: s.Contains(x)
  }

  /** The bytes given so far are the stream up to the expected number. */
  ghost predicate Ordered(d: Dir, s: ByteStream, given: seq<byte>) {
    Follows(d, s) && given == s.bytes[..d.next - s.base]
  }

  lemma NextPiece(s: ByteStream, next: nat, piece: seq<byte>)
    requires s.Valid() && s.Contains(Segment(next, piece))
    ensures var end := next + |piece|;
      end < UINT32 && end % UINT32 == end && end <= s.base + |s.bytes|
      && s.bytes[..next - s.base] + piece == s.bytes[..end - s.base]
  {
    assert s.bytes[next - s.base..next - s.base + |piece|] == piece;
  }

  lemma {:induction false} DrainOrdered(d: Dir, s: ByteStream, given: seq<byte>)
    requires Ordered(d, s, given)
    ensures var r := Drain(true, d); Ordered(r.dir, s, given + Joined(r.data)) && IndexOf(r.dir.buffer, r.dir.next) == -1
    decreases |d.buffer|
  {
    hide IndexOf, Without;
    var i := IndexOf(d.buffer, d.next);
    if i == -1 {
      assert given + [] == given;
    } else {
      var piece := d.buffer[i].data;
      TakeOrdered(d, s, given, i);
      DrainOrdered(Behind(true, d, i), s, given + piece);
      var rest := Drain(true, Behind(true, d, i)).data;
      JoinedFirst(given, piece, rest);
    }
  }

  lemma TakeOrdered(d: Dir, s: ByteStream, given: seq<byte>, i: nat)
    requires Ordered(d, s, given) && i < |d.buffer| && d.buffer[i].seqNumber == d.next
    ensures Ordered(Behind(true, d, i), s, given + d.buffer[i].data)
  {
    assert d.buffer[i] == Segment(d.next, d.buffer[i].data);
    NextPiece(s, d.next, d.buffer[i].data);
  }

  lemma JoinedFirst(given: seq<byte>, piece: seq<byte>, rest: seq<seq<byte>>)
    ensures given + Joined([piece] + rest) == given + piece + Joined(rest)
  {
    assert ([piece] + rest)[1..] == rest;
  }

  /** With the advance every segment of the stream, in any order, repeated or overlapping, keeps
    * what was given a prefix of the stream that ends at the expected number. */
  lemma ReAssembleOrdered(d: Dir, s: ByteStream, given: seq<byte>, x: Segment)
    requires Ordered(d, s, given) && s.Contains(x)
    ensures var r := Reassembled(true, d, x.seqNumber, x.data); Ordered(r.dir, s, given + Joined(r.data))
  {
    hide Drain;
    if d.next == x.seqNumber {
      NextPiece(s, d.next, x.data);
      var e := d.(next := (d.next + |x.data|) % UINT32);
      DrainOrdered(e, s, given + x.data);
      JoinedFirst(given, x.data, Drain(true, e).data);
    } else {
      assert given + [] == given;
    }
  }

  // ---- whole runs ----

  /** Feeds segments until the buffer overflows. */
  function ReAssembleAll(advance: bool, d: Dir, xs: seq<Segment>): Result
    decreases |xs|
  {
    if xs == [] then Result(d, [], true)
    else
      var r := Reassembled(advance, d, xs[0].seqNumber, xs[0].data);
      if !r.ok then r
      else
        var q := ReAssembleAll(advance, r.dir, xs[1..]);
        Result(q.dir, r.data + q.data, q.ok)
  }

  /** Prefix safety: whatever arrives, in whatever order. */
  lemma {:induction false} PrefixSafety(d: Dir, s: ByteStream, given: seq<byte>, xs: seq<Segment>)
    requires Ordered(d, s, given) && forall x | x in xs :: s.Contains(x)
    ensures var r := ReAssembleAll(true, d, xs); Ordered(r.dir, s, given + Joined(r.data))
    decreases |xs|
  {
    hide Reassembled;
    if xs == [] {
      assert given + [] == given;
    } else {
      ReAssembleOrdered(d, s, given, xs[0]);
      var r := Reassembled(true, d, xs[0].seqNumber, xs[0].data);
      if r.ok {
        PrefixSafety(r.dir, s, given + Joined(r.data), xs[1..]);
        var q := ReAssembleAll(true, r.dir, xs[1..]);
        JoinedConcat(r.data, q.data);
        assert given + (Joined(r.data) + Joined(q.data)) == given + Joined(r.data) + Joined(q.data);
      }
    }
  }
}
