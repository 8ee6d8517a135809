/** From the order of arrival alone: when the code as written delivers everything. */
module TcpArrivals {
  import opened Bytes
  import opened TcpDirection
  import opened TcpRuns
  import opened TcpHandover

  // ---- conditions on the arrivals ----

  /** The pieces from the k-th on arrive for the first time in their order; others may come
    * again at any time. */
  predicate FirstsInOrder(s: ByteStream, pieces: seq<seq<byte>>, k: nat, xs: seq<Segment>)
    requires k <= |pieces|
    decreases |xs|
  {
    xs == [] ||
    if xs[0].seqNumber < s.base + Offset(pieces, k) then FirstsInOrder(s, pieces, k, xs[1..])
    else k < |pieces| && xs[0] == PieceAt(s, pieces, k) && FirstsInOrder(s, pieces, k + 1, xs[1..])
  }

  function LastPiece(s: ByteStream, pieces: seq<seq<byte>>): Segment
    requires pieces != []
  {
    PieceAt(s, pieces, |pieces| - 1)
  }

  function Removed(xs: seq<Segment>, t: nat): seq<Segment>
    requires t < |xs|
  {
    xs[..t] + xs[t + 1..]
  }

  /** The last piece arrives once, as the t-th, before the last but one does, and the others, from
    * the k-th on, arrive for the first time in their order. */
  predicate EarlyAt(s: ByteStream, pieces: seq<seq<byte>>, k: nat, xs: seq<Segment>, t: nat)
    requires k + 2 <= |pieces|
  {
    && t < |xs| && xs[t] == LastPiece(s, pieces) && LastPiece(s, pieces) !in Removed(xs, t)
    && PieceAt(s, pieces, |pieces| - 2) !in xs[..t] && FirstsInOrder(s, pieces, k, Removed(xs, t))
  }

  predicate LastComesEarly(s: ByteStream, pieces: seq<seq<byte>>, xs: seq<Segment>) {
    |pieces| >= 2 && exists t | 0 <= t < |xs| :: EarlyAt(s, pieces, 0, xs, t)
  }

  // ---- no call skips ----

  lemma ExpectsAt(d: Dir, s: ByteStream, pieces: seq<seq<byte>>, k: nat)
    requires Expects(d, s, pieces, k)
    ensures k <= |pieces| && d.next == s.base + Offset(pieces, k)
  {
  }

  lemma SeqOf(s: ByteStream, pieces: seq<seq<byte>>, k: nat)
    requires k < |pieces|
    ensures PieceAt(s, pieces, k).seqNumber == s.base + Offset(pieces, k)
  {
  }

  lemma Dropped(d: Dir, x: Segment)
    requires x.seqNumber < d.next
    ensures Reassembled(false, d, x.seqNumber, x.data) == Result(d, [], true)
  {
  }

  /** A later piece is buffered: some call will skip, or the buffer overflows. */
  lemma {:induction false} BufferedSkips(d: Dir, s: ByteStream, pieces: seq<seq<byte>>, k: nat, j: nat, xs: seq<Segment>)
    requires Cut(s, pieces) && Expects(d, s, pieces, k) && IndexOf(d.buffer, d.next) == -1
    requires AllThere(d, s, pieces, k, xs) && forall x | x in xs :: IsPiece(s, pieces, x)
    requires k < j < |pieces| && PieceAt(s, pieces, j) in d.buffer
    ensures !(ReAssembleAll(false, d, xs).ok && NeverSkips(d, xs))
    decreases |xs|
  {
    hide Cut, Expects, IndexOf, Offset, IsPiece, AllThere, PieceAt, Reassembled, Handed, Skips;
    if xs == [] {
      Missing(d, s, pieces, k);
    } else {
      var x, rest := xs[0], xs[1..];
      assert xs == [x] + rest;
      var r := Reassembled(false, d, x.seqNumber, x.data);
      if !Skips(d, x) {
        if d.next == x.seqNumber {
          InOrder(d, s, pieces, k, x, rest);
          NextNotBuffered(d, s, pieces, k, x);
          BufferedSkips(r.dir, s, pieces, k + 1, j, rest);
        } else {
          NotExpected(d, s, pieces, k, x, rest);
          if r.ok { BufferedSkips(r.dir, s, pieces, k, j, rest); }
        }
      }
    }
  }

  /** If a call does not skip, the piece behind the one that arrived is not buffered. */
  lemma NextNotBuffered(d: Dir, s: ByteStream, pieces: seq<seq<byte>>, k: nat, x: Segment)
    requires Cut(s, pieces) && Expects(d, s, pieces, k) && k < |pieces| && x == PieceAt(s, pieces, k) && !Skips(d, x)
    ensures k + 1 < |pieces| ==> PieceAt(s, pieces, k + 1) !in d.buffer
  {
    BehindPiece(s, pieces, k);
  }

  lemma {:induction false} NeverSkipsExactly(d: Dir, s: ByteStream, pieces: seq<seq<byte>>, k: nat, xs: seq<Segment>)
    requires Cut(s, pieces) && Expects(d, s, pieces, k) && d.buffer == []
    requires AllThere(d, s, pieces, k, xs) && forall x | x in xs :: IsPiece(s, pieces, x)
    ensures ReAssembleAll(false, d, xs).ok && NeverSkips(d, xs) <==> FirstsInOrder(s, pieces, k, xs)
    decreases |xs|
  {
    hide Cut, Expects, Offset, IsPiece, AllThere, PieceAt, Reassembled, Handed, Skips;
    if xs != [] {
      var x, rest := xs[0], xs[1..];
      assert xs == [x] + rest;
      ExpectsAt(d, s, pieces, k);
      var r := Reassembled(false, d, x.seqNumber, x.data);
      if x.seqNumber < d.next {
        NotExpected(d, s, pieces, k, x, rest);
        Dropped(d, x);
        NeverSkipsExactly(r.dir, s, pieces, k, rest);
      } else if x.seqNumber == d.next {
        NothingSkips(d, x);
        InOrder(d, s, pieces, k, x, rest);
        NeverSkipsExactly(r.dir, s, pieces, k + 1, rest);
      } else {
        NotExpected(d, s, pieces, k, x, rest);
        if k < |pieces| { SeqOf(s, pieces, k); }
        var j := Later(s, pieces, k, x);
        if r.ok { BufferedSkips(r.dir, s, pieces, k, j, rest); }
      }
    }
  }

  lemma NothingSkips(d: Dir, x: Segment)
    requires d.buffer == []
    ensures !Skips(d, x)
  {
  }

  /** A piece with a larger number is a later one. */
  lemma Later(s: ByteStream, pieces: seq<seq<byte>>, k: nat, x: Segment) returns (j: nat)
    requires Cut(s, pieces) && IsPiece(s, pieces, x) && k <= |pieces| && x.seqNumber > s.base + Offset(pieces, k)
    ensures k < j < |pieces| && x == PieceAt(s, pieces, j)
  {
    hide Offset;
    var i :| 0 <= i < |pieces| && x == PieceAt(s, pieces, i);
    if i < k { OffsetGrows(pieces, i, k); }
    j := i;
  }

  // ---- only the call before the last piece skips ----

  /** Something waits that will make another call skip, or the last piece waits twice. */
  ghost predicate Hopeless(d: Dir, s: ByteStream, pieces: seq<seq<byte>>, k: nat) {
    k + 2 <= |pieces|
    && (|| (exists j | k < j < |pieces| - 1 :: PieceAt(s, pieces, j) in d.buffer)
        || Copies(d.buffer, LastPiece(s, pieces)) > 1)
  }

  lemma {:induction false} HopelessStays(d: Dir, s: ByteStream, pieces: seq<seq<byte>>, k: nat, xs: seq<Segment>)
    requires Cut(s, pieces) && Expects(d, s, pieces, k) && IndexOf(d.buffer, d.next) == -1
    requires AllThere(d, s, pieces, k, xs) && forall x | x in xs :: IsPiece(s, pieces, x)
    requires Hopeless(d, s, pieces, k)
    ensures !(ReAssembleAll(false, d, xs).ok && OnlyLastSkips(d, s, pieces, xs))
    decreases |xs|
  {
    hide Cut, Expects, IndexOf, Offset, IsPiece, AllThere, PieceAt, Reassembled, Handed, Skips, Copies, Hopeless;
    if xs != [] {
      var x, rest := xs[0], xs[1..];
      assert xs == [x] + rest;
      var r := Reassembled(false, d, x.seqNumber, x.data);
      if Skips(d, x) {
        HopelessSkip(d, s, pieces, k, x, rest);
      } else if d.next == x.seqNumber {
        InOrder(d, s, pieces, k, x, rest);
        HopelessBehind(d, r.dir, s, pieces, k, x);
        HopelessStays(r.dir, s, pieces, k + 1, rest);
      } else {
        NotExpected(d, s, pieces, k, x, rest);
        if r.ok {
          HopelessBuffer(d, r.dir, s, pieces, k, x);
          HopelessStays(r.dir, s, pieces, k, rest);
        }
      }
    }
  }

  lemma HopelessSkip(d: Dir, s: ByteStream, pieces: seq<seq<byte>>, k: nat, x: Segment, rest: seq<Segment>)
    requires Cut(s, pieces) && Expects(d, s, pieces, k) && IsPiece(s, pieces, x) && Skips(d, x) && Hopeless(d, s, pieces, k)
    ensures !OnlyLastSkips(d, s, pieces, [x] + rest)
  {
    hide Cut, Offset, IndexOf, IsPiece, Copies;
    PieceIs(s, pieces, x, k);
    BehindPiece(s, pieces, k);
    PiecesDiffer(s, pieces, |pieces| - 1, k + 1);
    assert ([x] + rest)[0] == x;
  }

  lemma HopelessBehind(d: Dir, e: Dir, s: ByteStream, pieces: seq<seq<byte>>, k: nat, x: Segment)
    requires Cut(s, pieces) && Expects(d, s, pieces, k) && k < |pieces| && x == PieceAt(s, pieces, k) && !Skips(d, x)
    requires Hopeless(d, s, pieces, k) && e.buffer == d.buffer
    ensures Hopeless(e, s, pieces, k + 1)
  {
    hide Cut, Offset, IsPiece, PieceAt, Skips, Expects;
    NextNotBuffered(d, s, pieces, k, x);
  }

  lemma HopelessBuffer(d: Dir, e: Dir, s: ByteStream, pieces: seq<seq<byte>>, k: nat, x: Segment)
    requires Hopeless(d, s, pieces, k) && (e.buffer == d.buffer || e.buffer == d.buffer + [x])
    ensures Hopeless(e, s, pieces, k)
  {
    hide PieceAt;
  }

  /** The last piece waits, and only that. */
  lemma {:induction false} WaitingExactly(d: Dir, s: ByteStream, pieces: seq<seq<byte>>, k: nat, xs: seq<Segment>)
    requires Cut(s, pieces) && Expects(d, s, pieces, k) && k + 2 <= |pieces| && d.buffer == [LastPiece(s, pieces)]
    requires AllThere(d, s, pieces, k, xs) && forall x | x in xs :: IsPiece(s, pieces, x)
    ensures ReAssembleAll(false, d, xs).ok && OnlyLastSkips(d, s, pieces, xs)
      <==> LastPiece(s, pieces) !in xs && FirstsInOrder(s, pieces, k, xs)
    decreases |xs|
  {
    hide Cut, Expects, IndexOf, Offset, IsPiece, AllThere, PieceAt, Reassembled, Handed, Skips, Copies, Hopeless;
    NothingExpected(d, s, pieces, k);
    ExpectsAt(d, s, pieces, k);
    if xs == [] {
      Missing(d, s, pieces, k);
    } else {
      var x, rest := xs[0], xs[1..];
      assert xs == [x] + rest;
      var r := Reassembled(false, d, x.seqNumber, x.data);
      if x.seqNumber < d.next {
        NotExpected(d, s, pieces, k, x, rest);
        Dropped(d, x);
        EarlierIsNotLast(s, pieces, k, x);
        WaitingExactly(r.dir, s, pieces, k, rest);
      } else if x.seqNumber == d.next {
        PieceIs(s, pieces, x, k);
        ExpectedArrives(d, s, pieces, k, x, rest);
        if k + 2 == |pieces| {
          SkipAtEnd(d, s, pieces, x, rest);
        } else {
          InOrder(d, s, pieces, k, x, rest);
          WaitingExactly(r.dir, s, pieces, k + 1, rest);
        }
      } else {
        NotExpected(d, s, pieces, k, x, rest);
        SeqOf(s, pieces, k);
        var j := Later(s, pieces, k, x);
        if r.ok {
          WaitsToo(r.dir, s, pieces, k, j, x);
          HopelessStays(r.dir, s, pieces, k, rest);
        }
      }
    }
  }

  lemma NothingExpected(d: Dir, s: ByteStream, pieces: seq<seq<byte>>, k: nat)
    requires Cut(s, pieces) && Expects(d, s, pieces, k) && k + 2 <= |pieces| && d.buffer == [LastPiece(s, pieces)]
    ensures IndexOf(d.buffer, d.next) == -1
  {
    PiecesDiffer(s, pieces, |pieces| - 1, k);
  }

  lemma EarlierIsNotLast(s: ByteStream, pieces: seq<seq<byte>>, k: nat, x: Segment)
    requires Cut(s, pieces) && k < |pieces| && x.seqNumber < s.base + Offset(pieces, k)
    ensures forall j | k <= j < |pieces| :: x != PieceAt(s, pieces, j)
  {
    hide Offset;
    forall j | k <= j < |pieces| ensures x != PieceAt(s, pieces, j) {
      Ascending(s, pieces, k, j);
    }
  }

  /** With the last piece waiting, a call skips exactly when the last but one arrives. */
  lemma ExpectedArrives(d: Dir, s: ByteStream, pieces: seq<seq<byte>>, k: nat, x: Segment, rest: seq<Segment>)
    requires Cut(s, pieces) && Expects(d, s, pieces, k) && k + 2 <= |pieces| && d.buffer == [LastPiece(s, pieces)]
    requires x == PieceAt(s, pieces, k) && forall y | y in rest :: IsPiece(s, pieces, y)
    ensures x != LastPiece(s, pieces) && (Skips(d, x) <==> k + 2 == |pieces|)
  {
    hide Cut, Offset, IsPiece;
    PiecesDiffer(s, pieces, |pieces| - 1, k);
    PiecesDiffer(s, pieces, |pieces| - 1, k + 1);
    BehindPiece(s, pieces, k);
  }

  lemma SkipAtEnd(d: Dir, s: ByteStream, pieces: seq<seq<byte>>, x: Segment, rest: seq<Segment>)
    requires Cut(s, pieces) && |pieces| >= 2 && Expects(d, s, pieces, |pieces| - 2) && d.buffer == [LastPiece(s, pieces)]
    requires x == PieceAt(s, pieces, |pieces| - 2) && Skips(d, x) && forall y | y in rest :: IsPiece(s, pieces, y)
    ensures OnlyLastSkips(d, s, pieces, [x] + rest) <==> LastPiece(s, pieces) !in rest
    ensures LastPiece(s, pieces) !in rest ==> ReAssembleAll(false, d, [x] + rest).ok
    ensures LastPiece(s, pieces) !in rest ==> FirstsInOrder(s, pieces, |pieces| - 2, [x] + rest)
  {
    hide Cut, Offset, IsPiece, Drain, Drained, IndexOf;
    var n := |pieces|;
    BehindPiece(s, pieces, n - 2);
    var e := d.(next := (d.next + |x.data|) % UINT32);
    DrainsCopies(e, s, pieces, n - 1);
    StuckAt(Drain(false, e).dir, s, pieces, n - 1, rest);
    if LastPiece(s, pieces) !in rest { OnlyEarlier(s, pieces, rest); }
    assert ([x] + rest)[1..] == rest;
  }

  lemma {:induction false} OnlyEarlier(s: ByteStream, pieces: seq<seq<byte>>, xs: seq<Segment>)
    requires Cut(s, pieces) && pieces != [] && (forall x | x in xs :: IsPiece(s, pieces, x)) && LastPiece(s, pieces) !in xs
    ensures FirstsInOrder(s, pieces, |pieces| - 1, xs)
    decreases |xs|
  {
    hide Cut, Offset, IsPiece;
    if xs != [] {
      PieceIs(s, pieces, xs[0], |pieces| - 1);
      OnlyEarlier(s, pieces, xs[1..]);
    }
  }

  lemma WaitsToo(e: Dir, s: ByteStream, pieces: seq<seq<byte>>, k: nat, j: nat, x: Segment)
    requires k + 2 <= |pieces| && k < j < |pieces| && x == PieceAt(s, pieces, j) && e.buffer == [LastPiece(s, pieces)] + [x]
    ensures Hopeless(e, s, pieces, k)
  {
    hide PieceAt;
    assert e.buffer[1] == x;
  }

  /** The last piece comes early, once, from a state in which the k-th piece is expected. */
  predicate ComesEarly(s: ByteStream, pieces: seq<seq<byte>>, k: nat, xs: seq<Segment>)
    requires k <= |pieces|
    decreases |xs|
  {
    && xs != [] && k + 2 <= |pieces|
    && if xs[0].seqNumber < s.base + Offset(pieces, k) then ComesEarly(s, pieces, k, xs[1..])
       else if xs[0] == LastPiece(s, pieces)
       then LastPiece(s, pieces) !in xs[1..] && FirstsInOrder(s, pieces, k, xs[1..])
       else xs[0] == PieceAt(s, pieces, k) && ComesEarly(s, pieces, k + 1, xs[1..])
  }

  lemma {:induction false} OnlyLastSkipsExactly(d: Dir, s: ByteStream, pieces: seq<seq<byte>>, k: nat, xs: seq<Segment>)
    requires Cut(s, pieces) && Expects(d, s, pieces, k) && d.buffer == []
    requires AllThere(d, s, pieces, k, xs) && forall x | x in xs :: IsPiece(s, pieces, x)
    ensures ReAssembleAll(false, d, xs).ok && OnlyLastSkips(d, s, pieces, xs) <==> ComesEarly(s, pieces, k, xs)
    decreases |xs|
  {
    hide Cut, Expects, Offset, IsPiece, AllThere, PieceAt, Reassembled, Handed, Skips, Copies, Hopeless;
    ExpectsAt(d, s, pieces, k);
    if xs != [] {
      var x, rest := xs[0], xs[1..];
      assert xs == [x] + rest;
      NothingSkips(d, x);
      var r := Reassembled(false, d, x.seqNumber, x.data);
      if x.seqNumber < d.next {
        NotExpected(d, s, pieces, k, x, rest);
        Dropped(d, x);
        OnlyLastSkipsExactly(r.dir, s, pieces, k, rest);
        if k + 2 > |pieces| { NeverEarly(s, pieces, k, rest); }
      } else if x.seqNumber == d.next {
        InOrder(d, s, pieces, k, x, rest);
        OnlyLastSkipsExactly(r.dir, s, pieces, k + 1, rest);
        if k + 2 > |pieces| { NeverEarly(s, pieces, k + 1, rest); } else { PiecesDiffer(s, pieces, |pieces| - 1, k); }
      } else {
        NotExpected(d, s, pieces, k, x, rest);
        EarlyOrHopeless(d, s, pieces, k, x, rest);
      }
    }
  }

  lemma NeverEarly(s: ByteStream, pieces: seq<seq<byte>>, k: nat, xs: seq<Segment>)
    requires k <= |pieces| && k + 2 > |pieces|
    ensures !ComesEarly(s, pieces, k, xs)
  {
  }

  /** A later piece arrives: the last one, or one that spoils it. */
  lemma EarlyOrHopeless(d: Dir, s: ByteStream, pieces: seq<seq<byte>>, k: nat, x: Segment, rest: seq<Segment>)
    requires Cut(s, pieces) && Expects(d, s, pieces, k) && d.buffer == [] && !Skips(d, x) && x.seqNumber > d.next
    requires AllThere(d, s, pieces, k, [x] + rest) && IsPiece(s, pieces, x) && forall y | y in rest :: IsPiece(s, pieces, y)
    ensures ReAssembleAll(false, d, [x] + rest).ok && OnlyLastSkips(d, s, pieces, [x] + rest)
      <==> ComesEarly(s, pieces, k, [x] + rest)
  {
    hide Cut, Expects, Offset, IsPiece, AllThere, PieceAt, Skips, Copies, Hopeless, FirstsInOrder, Handed;
    ExpectsAt(d, s, pieces, k);
    NotExpected(d, s, pieces, k, x, rest);
    var r := Reassembled(false, d, x.seqNumber, x.data);
    assert r.ok && [] + [x] == [x] && ([x] + rest)[1..] == rest;
    hide Reassembled;
    var j := Later(s, pieces, k, x);
    SeqOf(s, pieces, k);
    PiecesDiffer(s, pieces, j, |pieces| - 1);
    SeqOf(s, pieces, |pieces| - 1);
    if j == |pieces| - 1 {
      WaitingExactly(r.dir, s, pieces, k, rest);
    } else {
      SpoilsIt(r.dir, s, pieces, k, j, x);
      HopelessStays(r.dir, s, pieces, k, rest);
    }
  }

  lemma SpoilsIt(e: Dir, s: ByteStream, pieces: seq<seq<byte>>, k: nat, j: nat, x: Segment)
    requires k < j < |pieces| - 1 && x == PieceAt(s, pieces, j) && e.buffer == [x]
    ensures Hopeless(e, s, pieces, k)
  {
  }

  // ---- with the early arrival named ----

  lemma {:induction false} EarlyIsAt(s: ByteStream, pieces: seq<seq<byte>>, k: nat, xs: seq<Segment>) returns (t: nat)
    requires Cut(s, pieces) && k + 2 <= |pieces| && ComesEarly(s, pieces, k, xs)
    ensures EarlyAt(s, pieces, k, xs, t)
    decreases |xs|
  {
    hide Cut, Offset, PieceAt;
    var x, rest := xs[0], xs[1..];
    SeqOf(s, pieces, k);
    if x.seqNumber >= s.base + Offset(pieces, k) && x == LastPiece(s, pieces) {
      t := 0;
      assert Removed(xs, 0) == rest;
    } else {
      var next := if x.seqNumber < s.base + Offset(pieces, k) then k else k + 1;
      assert ComesEarly(s, pieces, next, rest);
      var u := EarlyIsAt(s, pieces, next, rest);
      t := u + 1;
      RemovedBehind(xs, u);
      if next == k {
        EarlierIsNotLast(s, pieces, k, x);
      } else {
        PiecesDiffer(s, pieces, |pieces| - 2, k);
        PiecesDiffer(s, pieces, |pieces| - 1, k);
      }
    }
  }

  lemma RemovedBehind(xs: seq<Segment>, u: nat)
    requires u + 1 < |xs|
    ensures Removed(xs, u + 1) == [xs[0]] + Removed(xs[1..], u) && xs[..u + 1] == [xs[0]] + xs[1..][..u]
    ensures Removed(xs, u + 1)[1..] == Removed(xs[1..], u)
  {
  }

  lemma {:induction false} AtIsEarly(s: ByteStream, pieces: seq<seq<byte>>, k: nat, xs: seq<Segment>, t: nat)
    requires Cut(s, pieces) && k + 2 <= |pieces| && EarlyAt(s, pieces, k, xs, t)
    ensures ComesEarly(s, pieces, k, xs)
    decreases |xs|
  {
    hide Cut, Offset, PieceAt;
    if t == 0 {
      assert Removed(xs, 0) == xs[1..];
      Ascending(s, pieces, k, |pieces| - 1);
    } else {
      RemovedBehind(xs, t - 1);
      assert xs[0] in xs[..t];
      assert xs[0] == Removed(xs, t)[0] && xs[0] in Removed(xs, t);
      if xs[0].seqNumber < s.base + Offset(pieces, k) {
        AtIsEarly(s, pieces, k, xs[1..], t - 1);
      } else {
        AtIsEarly(s, pieces, k + 1, xs[1..], t - 1);
      }
    }
  }

  lemma EarlyExactly(s: ByteStream, pieces: seq<seq<byte>>, xs: seq<Segment>)
    requires Cut(s, pieces)
    ensures ComesEarly(s, pieces, 0, xs) <==> LastComesEarly(s, pieces, xs)
  {
    hide Cut, EarlyAt;
    if ComesEarly(s, pieces, 0, xs) {
      var t := EarlyIsAt(s, pieces, 0, xs);
      assert t < |xs| by { hide *; InRange(s, pieces, xs, t); }
    }
    if LastComesEarly(s, pieces, xs) {
      var t :| 0 <= t < |xs| && EarlyAt(s, pieces, 0, xs, t);
      AtIsEarly(s, pieces, 0, xs, t);
    }
  }

  lemma InRange(s: ByteStream, pieces: seq<seq<byte>>, xs: seq<Segment>, t: nat)
    requires |pieces| >= 2 && EarlyAt(s, pieces, 0, xs, t)
    ensures t < |xs|
  {
  }

  // ---- the result ----

  /** When all pieces arrive the code hands over each of them once and in order exactly if they
    * arrive for the first time in order, or the last piece arrives once, too early, and the others
    * do so in order. */
  lemma {:induction false} HandedExactly(s: ByteStream, pieces: seq<seq<byte>>, xs: seq<Segment>)
    requires Cut(s, pieces) && forall x | x in xs :: IsPiece(s, pieces, x)
    requires forall k | 0 <= k < |pieces| :: PieceAt(s, pieces, k) in xs
    ensures HandedAll(Dir(s.base, []), xs) == AllPieces(s, pieces)
      <==> FirstsInOrder(s, pieces, 0, xs) || LastComesEarly(s, pieces, xs)
  {
    hide HandedAll, ReAssembleAll, NeverSkips, OnlyLastSkips, FirstsInOrder, ComesEarly, LastComesEarly, IsPiece;
    var d := Dir(s.base, []);
    HandedAsRun(s, pieces, xs);
    NeverSkipsExactly(d, s, pieces, 0, xs);
    OnlyLastSkipsExactly(d, s, pieces, 0, xs);
    EarlyExactly(s, pieces, xs);
  }

  /** The listener gets the whole stream exactly then, if no piece can stand for its neighbour. */
  lemma {:induction false} DeliveredExactly(s: ByteStream, pieces: seq<seq<byte>>, xs: seq<Segment>)
    requires Cut(s, pieces) && Distinct(pieces) && forall x | x in xs :: IsPiece(s, pieces, x)
    requires forall k | 0 <= k < |pieces| :: PieceAt(s, pieces, k) in xs
    ensures Joined(ReAssembleAll(false, Dir(s.base, []), xs).data) == s.bytes
      <==> FirstsInOrder(s, pieces, 0, xs) || LastComesEarly(s, pieces, xs)
  {
    hide *;
    HandedExactly(s, pieces, xs);
    HandedAsRun(s, pieces, xs);
    DeliveredAsRun(s, pieces, xs);
  }

  /** Whatever the pieces are, then the listener gets the whole stream. */
  lemma {:induction false} WholeStreamGiven(s: ByteStream, pieces: seq<seq<byte>>, xs: seq<Segment>)
    requires Cut(s, pieces) && forall x | x in xs :: IsPiece(s, pieces, x)
    requires forall k | 0 <= k < |pieces| :: PieceAt(s, pieces, k) in xs
    requires FirstsInOrder(s, pieces, 0, xs) || LastComesEarly(s, pieces, xs)
    ensures Joined(ReAssembleAll(false, Dir(s.base, []), xs).data) == s.bytes
  {
    HandedExactly(s, pieces, xs);
    GivenIsHanded(Dir(s.base, []), xs);
    hide HandedAll, ReAssembleAll, FirstsInOrder, LastComesEarly, IsPiece, PieceAt;
    assert DataOf(AllPieces(s, pieces)) == pieces by { DataOfAll(s, pieces); }
  }

  lemma DataOfAll(s: ByteStream, pieces: seq<seq<byte>>)
    ensures DataOf(AllPieces(s, pieces)) == pieces
  {
  }

  /** Every segment comes behind all pieces, from the k-th on, that stand before it in the stream. */
  ghost predicate Behind(s: ByteStream, pieces: seq<seq<byte>>, k: nat, xs: seq<Segment>) {
    forall i, j | 0 <= i < |xs| && k <= j < |pieces| && PieceAt(s, pieces, j).seqNumber < xs[i].seqNumber ::
      PieceAt(s, pieces, j) in xs[..i]
  }

  /** Arriving in order, said of the whole sequence. */
  lemma {:induction false} FirstsInOrderMeans(s: ByteStream, pieces: seq<seq<byte>>, k: nat, xs: seq<Segment>)
    requires Cut(s, pieces) && k <= |pieces| && forall x | x in xs :: IsPiece(s, pieces, x)
    ensures FirstsInOrder(s, pieces, k, xs) <==> Behind(s, pieces, k, xs)
    decreases |xs|
  {
    hide Cut, Offset, IsPiece, PieceAt, Behind;
    if xs == [] {
      NoneBehind(s, pieces, k);
    } else {
      PieceIs(s, pieces, xs[0], k);
      if xs[0].seqNumber <= s.base + Offset(pieces, k) {
        var next := if xs[0].seqNumber < s.base + Offset(pieces, k) then k else k + 1;
        FirstsInOrderMeans(s, pieces, next, xs[1..]);
        OneBehind(s, pieces, k, next, xs);
      } else {
        SeqOf(s, pieces, k);
        NotBehind(s, pieces, k, xs);
      }
    }
  }

  lemma NoneBehind(s: ByteStream, pieces: seq<seq<byte>>, k: nat)
    ensures Behind(s, pieces, k, [])
  {
  }

  lemma NotBehind(s: ByteStream, pieces: seq<seq<byte>>, k: nat, xs: seq<Segment>)
    requires k < |pieces| && xs != [] && PieceAt(s, pieces, k).seqNumber < xs[0].seqNumber
    ensures !Behind(s, pieces, k, xs)
  {
    hide PieceAt;
    assert PieceAt(s, pieces, k) !in xs[..0];
  }

  lemma OneBehind(s: ByteStream, pieces: seq<seq<byte>>, k: nat, next: nat, xs: seq<Segment>)
    requires Cut(s, pieces) && k <= next <= |pieces| && xs != []
    requires xs[0].seqNumber <= s.base + Offset(pieces, k)
    requires if next == k then xs[0].seqNumber < s.base + Offset(pieces, k) else next == k + 1 && xs[0] == PieceAt(s, pieces, k)
    ensures Behind(s, pieces, k, xs) <==> Behind(s, pieces, next, xs[1..])
  {
    hide Cut, Offset, PieceAt;
    var rest := xs[1..];
    forall j | next <= j < |pieces| ensures PieceAt(s, pieces, j) != xs[0] {
      if next == k { EarlierIsNotLast(s, pieces, k, xs[0]); } else { PiecesDiffer(s, pieces, j, k); SeqOf(s, pieces, j); SeqOf(s, pieces, k); }
    }
    forall j | k <= j < |pieces| ensures PieceAt(s, pieces, j).seqNumber >= xs[0].seqNumber {
      Ascending(s, pieces, k, j);
    }
    forall i | 0 <= i < |rest| ensures xs[..i + 1] == [xs[0]] + rest[..i] {
    }
    if Behind(s, pieces, k, xs) {
      forall i, j | 0 <= i < |rest| && next <= j < |pieces| && PieceAt(s, pieces, j).seqNumber < rest[i].seqNumber
        ensures PieceAt(s, pieces, j) in rest[..i]
      {
        assert rest[i] == xs[i + 1] && PieceAt(s, pieces, j) in xs[..i + 1];
      }
    }
    if Behind(s, pieces, next, rest) {
      forall i, j | 0 <= i < |xs| && k <= j < |pieces| && PieceAt(s, pieces, j).seqNumber < xs[i].seqNumber
        ensures PieceAt(s, pieces, j) in xs[..i]
      {
        assert xs[i] == rest[i - 1];
        if j < next { assert xs[..i][0] == PieceAt(s, pieces, j); } else { assert PieceAt(s, pieces, j) in rest[..i - 1]; }
      }
    }
  }
}
