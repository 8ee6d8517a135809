/** Runs of one TCP direction: everything arrives; what the code as written does. */
module TcpRuns {
  import opened Bytes
  import opened TcpDirection

  // ---- complete delivery with the advance ----

  /** Where the k-th piece begins. */
  function Offset(pieces: seq<seq<byte>>, k: nat): nat
    requires k <= |pieces|
  {
    if k == 0 then 0 else Offset(pieces, k - 1) + |pieces[k - 1]|
  }

  /** The stream is cut into these pieces once and for all. */
  ghost predicate Cut(s: ByteStream, pieces: seq<seq<byte>>) {
    s.Valid() && s.bytes == Joined(pieces) && forall k | 0 <= k < |pieces| :: pieces[k] != []
  }

  function PieceAt(s: ByteStream, pieces: seq<seq<byte>>, k: nat): Segment
    requires k < |pieces|
  {
    Segment(s.base + Offset(pieces, k), pieces[k])
  }

  ghost predicate IsPiece(s: ByteStream, pieces: seq<seq<byte>>, x: Segment) {
    exists k | 0 <= k < |pieces| :: x == PieceAt(s, pieces, k)
  }

  lemma {:induction false} OffsetIsLength(pieces: seq<seq<byte>>, k: nat)
    requires k <= |pieces|
    ensures Offset(pieces, k) == |Joined(pieces[..k])|
    ensures Joined(pieces) == Joined(pieces[..k]) + Joined(pieces[k..])
  {
    assert pieces == pieces[..k] + pieces[k..];
    JoinedConcat(pieces[..k], pieces[k..]);
    if k > 0 {
      OffsetIsLength(pieces, k - 1);
      assert pieces[..k] == pieces[..k - 1] + [pieces[k - 1]];
      JoinedConcat(pieces[..k - 1], [pieces[k - 1]]);
    }
  }

  lemma {:induction false} PiecesAreContained(s: ByteStream, pieces: seq<seq<byte>>, k: nat)
    requires Cut(s, pieces) && k < |pieces|
    ensures s.Contains(PieceAt(s, pieces, k))
    ensures Offset(pieces, k) + |pieces[k]| <= |s.bytes|
  {
    PieceStands(pieces, k);
    hide Joined, Offset;
    PartOf(Joined(pieces[..k]), pieces[k], Joined(pieces[k + 1..]));
  }

  /** A piece stands behind those before it and in front of the rest. */
  lemma {:induction false} PieceStands(pieces: seq<seq<byte>>, k: nat)
    requires k < |pieces|
    ensures Offset(pieces, k) == |Joined(pieces[..k])|
    ensures Joined(pieces) == Joined(pieces[..k]) + pieces[k] + Joined(pieces[k + 1..])
  {
    OffsetIsLength(pieces, k);
    assert pieces[k..] == [pieces[k]] + pieces[k + 1..];
    JoinedConcat([pieces[k]], pieces[k + 1..]);
    JoinedOne(pieces[k]);
    hide *;
  }

  lemma JoinedOne(p: seq<byte>)
    ensures Joined([p]) == p
  {
    var one := [p];
    assert one[1..] == [];
  }

  lemma PartOf(a: seq<byte>, p: seq<byte>, rest: seq<byte>)
    ensures (a + p + rest)[|a|..|a| + |p|] == p
  {
  }

  /** What arrived is either given to the listener already or still buffered. */
  ghost predicate Remembers(d: Dir, s: ByteStream, pieces: seq<seq<byte>>, arrived: set<Segment>) {
    && (exists k | 0 <= k <= |pieces| :: d.next == s.base + Offset(pieces, k))
    && (forall x | x in d.buffer :: IsPiece(s, pieces, x))
    && (forall x | x in arrived :: x.seqNumber < d.next || x in d.buffer)
  }

  lemma KeepsOthers(buffer: seq<Segment>, i: nat)
    requires i < |buffer|
    ensures forall x | x in buffer :: x == buffer[i] || x in Without(buffer, i)
    ensures forall x | x in Without(buffer, i) :: x in buffer
  {
  }

  /** Taking the expected piece moves on to the next boundary. */
  lemma NextBoundary(d: Dir, s: ByteStream, pieces: seq<seq<byte>>, data: seq<byte>)
    requires Cut(s, pieces) && IsPiece(s, pieces, Segment(d.next, data))
    ensures data != [] && (d.next + |data|) % UINT32 == d.next + |data|
    ensures exists k | 0 <= k <= |pieces| :: d.next + |data| == s.base + Offset(pieces, k)
  {
    hide *;
    var k := PieceEnd(s, pieces, Segment(d.next, data));
  }

  lemma PieceEnd(s: ByteStream, pieces: seq<seq<byte>>, x: Segment) returns (end: nat)
    requires Cut(s, pieces) && IsPiece(s, pieces, x)
    ensures x.data != [] && end <= |pieces| && x.seqNumber + |x.data| == s.base + Offset(pieces, end) < UINT32
  {
    var k :| 0 <= k < |pieces| && x == PieceAt(s, pieces, k);
    PiecesAreContained(s, pieces, k);
    end := k + 1;
  }

  lemma {:induction false} DrainRemembers(d: Dir, s: ByteStream, pieces: seq<seq<byte>>, arrived: set<Segment>)
    requires Cut(s, pieces) && Remembers(d, s, pieces, arrived)
    ensures var r := Drain(true, d); Remembers(r.dir, s, pieces, arrived) && IndexOf(r.dir.buffer, r.dir.next) == -1
    decreases |d.buffer|
  {
    hide IndexOf, Without;
    var i := IndexOf(d.buffer, d.next);
    if i != -1 {
      assert d.buffer[i] == Segment(d.next, d.buffer[i].data);
      NextBoundary(d, s, pieces, d.buffer[i].data);
      KeepsOthers(d.buffer, i);
      DrainRemembers(Behind(true, d, i), s, pieces, arrived);
    }
  }

  lemma ReAssembleRemembers(d: Dir, s: ByteStream, pieces: seq<seq<byte>>, arrived: set<Segment>, x: Segment)
    requires Cut(s, pieces) && Remembers(d, s, pieces, arrived) && IsPiece(s, pieces, x)
    requires IndexOf(d.buffer, d.next) == -1
    ensures var r := Reassembled(true, d, x.seqNumber, x.data);
      r.ok ==> Remembers(r.dir, s, pieces, arrived + {x}) && IndexOf(r.dir.buffer, r.dir.next) == -1
  {
    hide Drain, IsPiece, Offset;
    if d.next == x.seqNumber {
      assert x == Segment(d.next, x.data);
      NextBoundary(d, s, pieces, x.data);
      DrainRemembers(d.(next := (d.next + |x.data|) % UINT32), s, pieces, arrived + {x});
    }
  }

  lemma {:induction false} RunRemembers(d: Dir, s: ByteStream, pieces: seq<seq<byte>>, arrived: set<Segment>, xs: seq<Segment>)
    requires Cut(s, pieces) && Remembers(d, s, pieces, arrived) && IndexOf(d.buffer, d.next) == -1
    requires forall x | x in xs :: IsPiece(s, pieces, x)
    ensures var r := ReAssembleAll(true, d, xs);
      r.ok ==> Remembers(r.dir, s, pieces, arrived + set x | x in xs) && IndexOf(r.dir.buffer, r.dir.next) == -1
    decreases |xs|
  {
    hide Remembers, Reassembled, IsPiece, IndexOf;
    if xs == [] {
      assert arrived + (set x | x in xs) == arrived;
    } else {
      ReAssembleRemembers(d, s, pieces, arrived, xs[0]);
      var r := Reassembled(true, d, xs[0].seqNumber, xs[0].data);
      if r.ok {
        RunRemembers(r.dir, s, pieces, arrived + {xs[0]}, xs[1..]);
        assert arrived + {xs[0]} + (set x | x in xs[1..]) == arrived + set x | x in xs;
      }
    }
  }

  /** Pieces with fixed boundaries, in any order and any number of times each but at least
    * once, while the buffer does not overflow: the listener gets the whole stream. */
  lemma CompleteDelivery(s: ByteStream, pieces: seq<seq<byte>>, xs: seq<Segment>)
    requires Cut(s, pieces)
    requires forall x | x in xs :: IsPiece(s, pieces, x)
    requires forall k | 0 <= k < |pieces| :: PieceAt(s, pieces, k) in xs
    ensures var r := ReAssembleAll(true, Dir(s.base, []), xs); r.ok ==> Joined(r.data) == s.bytes
  {
    hide ReAssembleAll, IsPiece;
    var d := Dir(s.base, []);
    assert s.base + Offset(pieces, 0) == d.next;
    RunRemembers(d, s, pieces, {}, xs);
    forall x | x in xs ensures s.Contains(x) { PieceIsContained(s, pieces, x); }
    PrefixSafety(d, s, [], xs);
    var r := ReAssembleAll(true, d, xs);
    assert [] + Joined(r.data) == Joined(r.data);
    if r.ok {
      var k :| 0 <= k <= |pieces| && r.dir.next == s.base + Offset(pieces, k);
      if k < |pieces| { NotMissing(r.dir, s, pieces, {} + (set x | x in xs), PieceAt(s, pieces, k)); }
      OffsetIsLength(pieces, |pieces|);
      assert pieces[..|pieces|] == pieces;
      assert s.bytes[..|s.bytes|] == s.bytes;
    }
  }

  lemma NotMissing(d: Dir, s: ByteStream, pieces: seq<seq<byte>>, arrived: set<Segment>, x: Segment)
    requires Remembers(d, s, pieces, arrived) && x in arrived && x.seqNumber == d.next
    ensures IndexOf(d.buffer, d.next) != -1
  {
    assert x in d.buffer;
  }

  lemma PieceIsContained(s: ByteStream, pieces: seq<seq<byte>>, x: Segment)
    requires Cut(s, pieces) && IsPiece(s, pieces, x)
    ensures s.Contains(x)
  {
    var k :| 0 <= k < |pieces| && x == PieceAt(s, pieces, k);
    PiecesAreContained(s, pieces, k);
  }

  /** The buffer holds at most 64 segments, and overflows only when it holds that many. */
  lemma {:induction false} BufferBounded(advance: bool, d: Dir, xs: seq<Segment>)
    requires |d.buffer| <= TCP_SEQ_BUFFER_SIZE
    ensures var r := ReAssembleAll(advance, d, xs);
      |r.dir.buffer| <= TCP_SEQ_BUFFER_SIZE && (!r.ok ==> |r.dir.buffer| == TCP_SEQ_BUFFER_SIZE)
      && (|d.buffer| + |xs| <= TCP_SEQ_BUFFER_SIZE ==> r.ok)
    decreases |xs|
  {
    hide Drain;
    if xs != [] {
      var r := Reassembled(advance, d, xs[0].seqNumber, xs[0].data);
      if r.ok { BufferBounded(advance, r.dir, xs[1..]); }
    }
  }

  // ---- the code as written ----

  /** The segment expected next arrives and the one behind it is buffered: the code hands over
    * both but moves on behind the first only. */
  predicate Skips(d: Dir, x: Segment) {
    d.next == x.seqNumber && IndexOf(d.buffer, (d.next + |x.data|) % UINT32) != -1
  }

  lemma {:induction false} DrainInPlace(d: Dir, s: ByteStream)
    requires Follows(d, s)
    ensures var r := Drain(false, d);
      && r.dir.next == d.next && Follows(r.dir, s)
      && (IndexOf(d.buffer, d.next) == -1 ==> r == Result(d, [], true))
      && (IndexOf(d.buffer, d.next) != -1 ==> |Joined(r.data)| > 0)
    decreases |d.buffer|
  {
    hide IndexOf, Without;
    var i := IndexOf(d.buffer, d.next);
    if i != -1 {
      assert s.Contains(d.buffer[i]);
      KeepsOthers(d.buffer, i);
      DrainInPlace(Behind(false, d, i), s);
      JoinedFirst([], d.buffer[i].data, Drain(false, Behind(false, d, i)).data);
    }
  }

  /** What one call adds beyond the bytes that it moves on by. */
  lemma OneCall(d: Dir, s: ByteStream, given: seq<byte>, x: Segment)
    requires Follows(d, s) && s.Contains(x)
    ensures var r := Reassembled(false, d, x.seqNumber, x.data);
      && Follows(r.dir, s)
      && |Joined(r.data)| >= r.dir.next - d.next
      && (Skips(d, x) ==> |Joined(r.data)| > r.dir.next - d.next)
      && (!Skips(d, x) ==> r == Reassembled(true, d, x.seqNumber, x.data))
  {
    hide Drain, IndexOf;
    if d.next == x.seqNumber {
      NextPiece(s, d.next, x.data);
      var e := d.(next := (d.next + |x.data|) % UINT32);
      DrainInPlace(e, s);
      if IndexOf(e.buffer, e.next) == -1 { NothingToDrain(true, e); }
      JoinedFirst([], x.data, Drain(false, e).data);
    }
  }

  lemma NothingToDrain(advance: bool, d: Dir)
    requires IndexOf(d.buffer, d.next) == -1
    ensures Drain(advance, d) == Result(d, [], true)
  {
  }

  /** A call keeps what was given a prefix that ends at the expected number exactly when no
    * buffered segment joins on; then it does what the advance would have done. */
  lemma OrderedExactly(d: Dir, s: ByteStream, given: seq<byte>, x: Segment)
    requires Ordered(d, s, given) && s.Contains(x)
    ensures var r := Reassembled(false, d, x.seqNumber, x.data);
      Ordered(r.dir, s, given + Joined(r.data)) <==> !Skips(d, x)
  {
    hide Reassembled, Skips;
    OneCall(d, s, given, x);
    if !Skips(d, x) { ReAssembleOrdered(d, s, given, x); }
  }

  /** No call of a run hands over a buffered segment. */
  predicate NeverSkips(d: Dir, xs: seq<Segment>)
    decreases |xs|
  {
    xs == [] || (!Skips(d, xs[0]) && NeverSkips(Reassembled(false, d, xs[0].seqNumber, xs[0].data).dir, xs[1..]))
  }

  /** Once more was given than the expected number says, it stays so. */
  lemma {:induction false} SurplusStays(d: Dir, s: ByteStream, xs: seq<Segment>)
    requires Follows(d, s) && forall x | x in xs :: s.Contains(x)
    ensures var r := ReAssembleAll(false, d, xs); Follows(r.dir, s) && |Joined(r.data)| >= r.dir.next - d.next
    decreases |xs|
  {
    hide Reassembled;
    if xs != [] {
      OneCall(d, s, [], xs[0]);
      var r := Reassembled(false, d, xs[0].seqNumber, xs[0].data);
      if r.ok {
        SurplusStays(r.dir, s, xs[1..]);
        JoinedConcat(r.data, ReAssembleAll(false, r.dir, xs[1..]).data);
      }
    }
  }

  /** Over a whole run: what was given is the stream up to the expected number exactly when no
    * call ever joined a buffered segment on. */
  lemma {:induction false} RunOrderedExactly(d: Dir, s: ByteStream, given: seq<byte>, xs: seq<Segment>)
    requires Ordered(d, s, given) && forall x | x in xs :: s.Contains(x)
    requires ReAssembleAll(false, d, xs).ok
    ensures var r := ReAssembleAll(false, d, xs);
      Ordered(r.dir, s, given + Joined(r.data)) <==> NeverSkips(d, xs)
    decreases |xs|
  {
    hide Reassembled, Skips;
    if xs == [] {
      assert given + [] == given;
    } else {
      var r := Reassembled(false, d, xs[0].seqNumber, xs[0].data);
      var q := ReAssembleAll(false, r.dir, xs[1..]);
      JoinedConcat(r.data, q.data);
      assert given + (Joined(r.data) + Joined(q.data)) == (given + Joined(r.data)) + Joined(q.data);
      OrderedExactly(d, s, given, xs[0]);
      if Skips(d, xs[0]) {
        OneCall(d, s, given, xs[0]);
        SurplusStays(r.dir, s, xs[1..]);
      } else {
        RunOrderedExactly(r.dir, s, given + Joined(r.data), xs[1..]);
      }
    }
  }

  /** "abc" with the first two bytes swapped on the way and the second sent again: the code gives
    * "abb", and waits for a byte it has already given; with the advance it gives "abc". */
  lemma SwappedSegments()
    ensures var a, b, c := Segment(1, [97]), Segment(2, [98]), Segment(3, [99]);
      && Joined(ReAssembleAll(false, Dir(1, []), [b, a, b]).data) == [97, 98, 98]
      && Joined(ReAssembleAll(false, Dir(1, []), [b, a, c]).data) == [97, 98]
      && Joined(ReAssembleAll(true, Dir(1, []), [b, a, b, c]).data) == [97, 98, 99]
  {
    hide *;
    GivenAgain();
    GivenLess();
    GivenWithAdvance();
  }

  lemma GivenAgain()
    ensures var a, b := Segment(1, [97]), Segment(2, [98]);
      Joined(ReAssembleAll(false, Dir(1, []), [b, a, b]).data) == [97, 98, 98]
  {
    var a, b := Segment(1, [97]), Segment(2, [98]);
    hide *;
    AfterSwap(false, [b]);
    LastSegment(false, 2, b);
    JoinedThree(97, 98, 98);
    assert [b, a] + [b] == [b, a, b];
  }

  lemma GivenLess()
    ensures var a, b, c := Segment(1, [97]), Segment(2, [98]), Segment(3, [99]);
      Joined(ReAssembleAll(false, Dir(1, []), [b, a, c]).data) == [97, 98]
  {
    var a, b, c := Segment(1, [97]), Segment(2, [98]), Segment(3, [99]);
    hide *;
    AfterSwap(false, [c]);
    LastSegment(false, 2, c);
    JoinedThree(97, 98, 98);
    assert [b, a] + [c] == [b, a, c];
  }

  lemma GivenWithAdvance()
    ensures var a, b, c := Segment(1, [97]), Segment(2, [98]), Segment(3, [99]);
      Joined(ReAssembleAll(true, Dir(1, []), [b, a, b, c]).data) == [97, 98, 99]
  {
    var a, b, c := Segment(1, [97]), Segment(2, [98]), Segment(3, [99]);
    hide *;
    AfterSwap(true, [b, c]);
    LastSegment(true, 3, c);
    Retransmitted(3, b, [c]);
    JoinedThree(97, 98, 99);
    assert [b] + [c] == [b, c] && [b, a] + [b, c] == [b, a, b, c];
  }

  lemma LastSegment(advance: bool, next: nat, x: Segment)
    requires next <= x.seqNumber
    ensures ReAssembleAll(advance, Dir(next, []), [x]).data == if x.seqNumber == next then [x.data] else []
  {
    assert [x][1..] == [];
    NothingToDrain(advance, Dir((next + |x.data|) % UINT32, []));
  }

  lemma Retransmitted(next: nat, x: Segment, rest: seq<Segment>)
    requires x.seqNumber < next
    ensures ReAssembleAll(true, Dir(next, []), [x] + rest).data == ReAssembleAll(true, Dir(next, []), rest).data
  {
    assert ([x] + rest)[1..] == rest;
  }

  lemma JoinedThree(x: byte, y: byte, z: byte)
    ensures Joined([[x], [y]] + []) == [x, y] && Joined([[x], [y]] + [[z]]) == [x, y, z]
  {
    JoinedConcat([[x]], [[y]]);
    JoinedConcat([[x], [y]], [[z]]);
    assert [[x]] + [[y]] == [[x], [y]];
  }

  /** Behind the swapped segments. */
  lemma AfterSwap(advance: bool, rest: seq<Segment>)
    ensures var a, b := Segment(1, [97]), Segment(2, [98]);
      var q := ReAssembleAll(advance, Dir(if advance then 3 else 2, []), rest);
      ReAssembleAll(advance, Dir(1, []), [b, a] + rest) == Result(q.dir, [[97], [98]] + q.data, q.ok)
  {
    var a, b := Segment(1, [97]), Segment(2, [98]);
    assert Reassembled(advance, Dir(1, []), 2, [98]) == Result(Dir(1, [b]), [], true);
    TakeOnly(advance, b);
    hide Drain, IndexOf;
    var after := Dir(if advance then 3 else 2, []);
    assert Reassembled(advance, Dir(1, [b]), 1, [97]) == Result(after, [[97], [98]], true);
    hide Reassembled;
    var q := ReAssembleAll(advance, after, rest);
    assert [] + ([[97], [98]] + q.data) == [[97], [98]] + q.data;
  }

  lemma TakeOnly(advance: bool, b: Segment)
    requires b == Segment(2, [98])
    ensures Drain(advance, Dir(2, [b])) == Result(Dir(if advance then 3 else 2, []), [[98]], true)
  {
    assert IndexOf([b], 2) == 0;
    var after := Behind(advance, Dir(2, [b]), 0);
    assert after.buffer == [];
    NothingToDrain(advance, after);
  }
}
