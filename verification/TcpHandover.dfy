/** What the code as written hands over, call by call: each piece once and in order exactly if no
  * call skips, or only the one before the last piece does. */
module TcpHandover {
  import opened Bytes
  import opened TcpDirection
  import opened TcpRuns

  // ---- the segments that are handed over ----

  function Drained(d: Dir): seq<Segment>
    decreases |d.buffer|
  {
    var i := IndexOf(d.buffer, d.next);
    if i == -1 then [] else [d.buffer[i]] + Drained(Behind(false, d, i))
  }

  function Handed(d: Dir, x: Segment): seq<Segment> {
    if d.next == x.seqNumber then [x] + Drained(d.(next := (d.next + |x.data|) % UINT32)) else []
  }

  function HandedAll(d: Dir, xs: seq<Segment>): seq<Segment>
    decreases |xs|
  {
    if xs == [] then []
    else
      var r := Reassembled(false, d, xs[0].seqNumber, xs[0].data);
      Handed(d, xs[0]) + if r.ok then HandedAll(r.dir, xs[1..]) else []
  }

  function DataOf(segments: seq<Segment>): seq<seq<byte>> {
    seq(|segments|, i requires 0 <= i < |segments| => segments[i].data)
  }

  lemma DataOfConcat(a: seq<Segment>, b: seq<Segment>)
    ensures DataOf(a + b) == DataOf(a) + DataOf(b)
  {
  }

  lemma {:induction false} GivenByDrain(d: Dir)
    ensures Drain(false, d).data == DataOf(Drained(d))
    decreases |d.buffer|
  {
    hide IndexOf, Without;
    var i := IndexOf(d.buffer, d.next);
    if i != -1 {
      var after := Behind(false, d, i);
      GivenByDrain(after);
      DataOfConcat([d.buffer[i]], Drained(after));
    }
  }

  /** What the listener is given is the data of the segments handed over. */
  lemma {:induction false} GivenIsHanded(d: Dir, xs: seq<Segment>)
    ensures ReAssembleAll(false, d, xs).data == DataOf(HandedAll(d, xs))
    decreases |xs|
  {
    hide Drain, Drained, IndexOf;
    if xs != [] {
      var x := xs[0];
      var e := d.(next := (d.next + |x.data|) % UINT32);
      GivenByDrain(e);
      DataOfConcat([x], Drained(e));
      var r := Reassembled(false, d, x.seqNumber, x.data);
      if r.ok {
        GivenIsHanded(r.dir, xs[1..]);
        DataOfConcat(Handed(d, x), HandedAll(r.dir, xs[1..]));
      } else {
        assert Handed(d, x) + [] == Handed(d, x);
      }
    }
  }

  // ---- pieces and where they begin ----

  function AllPieces(s: ByteStream, pieces: seq<seq<byte>>): seq<Segment> {
    seq(|pieces|, k requires 0 <= k < |pieces| => PieceAt(s, pieces, k))
  }

  lemma {:induction false} OffsetGrows(pieces: seq<seq<byte>>, j: nat, k: nat)
    requires j < k <= |pieces| && forall i | 0 <= i < |pieces| :: pieces[i] != []
    ensures Offset(pieces, j) < Offset(pieces, k)
  {
    if j < k - 1 { OffsetGrows(pieces, j, k - 1); }
  }

  /** Pieces come at the boundaries, and each boundary but the last begins one piece. */
  lemma PieceIs(s: ByteStream, pieces: seq<seq<byte>>, x: Segment, k: nat)
    requires Cut(s, pieces) && IsPiece(s, pieces, x) && k <= |pieces|
    ensures x.seqNumber == s.base + Offset(pieces, k) ==> k < |pieces| && x == PieceAt(s, pieces, k)
    ensures x.seqNumber > s.base + Offset(pieces, k) ==> k + 1 < |pieces|
  {
    hide Offset;
    var j :| 0 <= j < |pieces| && x == PieceAt(s, pieces, j);
    if j < k {
      OffsetGrows(pieces, j, k);
    } else if k < j {
      OffsetGrows(pieces, k, j);
    }
  }

  lemma PiecesDiffer(s: ByteStream, pieces: seq<seq<byte>>, j: nat, k: nat)
    requires Cut(s, pieces) && j < |pieces| && k < |pieces|
    ensures PieceAt(s, pieces, j).seqNumber == s.base + Offset(pieces, k) <==> j == k
  {
    hide Offset;
    if j < k {
      OffsetGrows(pieces, j, k);
    } else if k < j {
      OffsetGrows(pieces, k, j);
    }
  }

  /** The k-th piece is expected, and only pieces are buffered. */
  ghost predicate Expects(d: Dir, s: ByteStream, pieces: seq<seq<byte>>, k: nat) {
    k <= |pieces| && d.next == s.base + Offset(pieces, k) && forall x | x in d.buffer :: IsPiece(s, pieces, x)
  }

  /** The number behind a piece is where the next one begins. */
  lemma BehindPiece(s: ByteStream, pieces: seq<seq<byte>>, k: nat)
    requires Cut(s, pieces) && k < |pieces|
    ensures (s.base + Offset(pieces, k) + |pieces[k]|) % UINT32 == s.base + Offset(pieces, k) + |pieces[k]|
    ensures s.base + Offset(pieces, k) + |pieces[k]| == s.base + Offset(pieces, k + 1)
  {
    PiecesAreContained(s, pieces, k);
  }

  function Copies(buffer: seq<Segment>, x: Segment): nat { multiset(buffer)[x] }

  lemma CopiesWithout(buffer: seq<Segment>, i: nat)
    requires i < |buffer|
    ensures Copies(Without(buffer, i), buffer[i]) + 1 == Copies(buffer, buffer[i])
  {
    hide Without;
    assert multiset(Without(buffer, i)) + multiset{buffer[i]} == multiset(buffer);
  }

  lemma NoCopies(buffer: seq<Segment>, x: Segment)
    requires IndexOf(buffer, x.seqNumber) == -1
    ensures Copies(buffer, x) == 0
  {
    assert x !in buffer;
  }

  /** Draining hands over every buffered copy of the piece that is expected. */
  lemma {:induction false} DrainsCopies(d: Dir, s: ByteStream, pieces: seq<seq<byte>>, k: nat)
    requires Cut(s, pieces) && Expects(d, s, pieces, k)
    ensures var f := Drain(false, d).dir; Expects(f, s, pieces, k) && IndexOf(f.buffer, f.next) == -1
    ensures forall x | x in Drained(d) :: k < |pieces| && x == PieceAt(s, pieces, k)
    ensures k < |pieces| ==> |Drained(d)| == Copies(d.buffer, PieceAt(s, pieces, k))
    decreases |d.buffer|
  {
    hide IndexOf, Without, Cut, IsPiece, Offset, Copies;
    var i := IndexOf(d.buffer, d.next);
    if i == -1 {
      if k < |pieces| { NoCopies(d.buffer, PieceAt(s, pieces, k)); }
    } else {
      PieceIs(s, pieces, d.buffer[i], k);
      KeepsOthers(d.buffer, i);
      CopiesWithout(d.buffer, i);
      DrainsCopies(Behind(false, d, i), s, pieces, k);
    }
  }

  // ---- exactly when each piece is handed over once and in order ----

  /** The only call that skips is the one for the last piece but one: the last piece is
    * buffered, once, and does not come again. */
  predicate OnlyLastSkips(d: Dir, s: ByteStream, pieces: seq<seq<byte>>, xs: seq<Segment>)
    decreases |xs|
  {
    && xs != [] && pieces != []
    && var last := PieceAt(s, pieces, |pieces| - 1);
    if Skips(d, xs[0])
    then d.next + |xs[0].data| == last.seqNumber && Copies(d.buffer, last) == 1 && last !in xs[1..]
    else OnlyLastSkips(Reassembled(false, d, xs[0].seqNumber, xs[0].data).dir, s, pieces, xs[1..])
  }

  /** All that can be handed over next is the piece that is expected, whenever it comes. */
  lemma {:induction false} StuckAt(d: Dir, s: ByteStream, pieces: seq<seq<byte>>, k: nat, xs: seq<Segment>)
    requires Cut(s, pieces) && Expects(d, s, pieces, k) && k < |pieces|
    requires forall x | x in xs :: IsPiece(s, pieces, x)
    ensures HandedAll(d, xs) != [] ==> HandedAll(d, xs)[0] == PieceAt(s, pieces, k)
    ensures PieceAt(s, pieces, k) !in xs ==> HandedAll(d, xs) == []
    ensures k + 1 == |pieces| ==> (PieceAt(s, pieces, k) in xs ==> HandedAll(d, xs) != [])
    ensures k + 1 == |pieces| && PieceAt(s, pieces, k) !in xs ==> ReAssembleAll(false, d, xs).ok
    decreases |xs|
  {
    hide IndexOf, Cut, IsPiece, Offset, Drain, Drained, PieceAt;
    if xs != [] {
      PieceIs(s, pieces, xs[0], k);
      var r := Reassembled(false, d, xs[0].seqNumber, xs[0].data);
      PiecesDiffer(s, pieces, k, k);
      if d.next != xs[0].seqNumber && r.ok { StuckAt(r.dir, s, pieces, k, xs[1..]); }
    }
  }

  /** Behind a skip the rest comes out right only if nothing is left and nothing more comes. */
  lemma BehindSkip(d: Dir, s: ByteStream, pieces: seq<seq<byte>>, k: nat, copies: seq<Segment>, xs: seq<Segment>)
    requires Cut(s, pieces) && Expects(d, s, pieces, k) && k < |pieces|
    requires forall x | x in xs :: IsPiece(s, pieces, x)
    requires copies != [] && forall x | x in copies :: x == PieceAt(s, pieces, k)
    ensures copies + HandedAll(d, xs) == AllPieces(s, pieces)[k..]
      <==> |copies| == 1 && k + 1 == |pieces| && PieceAt(s, pieces, k) !in xs
    ensures k + 1 == |pieces| && PieceAt(s, pieces, k) !in xs ==> ReAssembleAll(false, d, xs).ok
  {
    hide Cut, IsPiece, Offset, HandedAll, PieceAt, ReAssembleAll;
    StuckAt(d, s, pieces, k, xs);
    var rest, h := AllPieces(s, pieces)[k..], HandedAll(d, xs);
    assert rest[0] == PieceAt(s, pieces, k);
    assert copies[0] in copies;
    if |rest| > 1 {
      PiecesDiffer(s, pieces, k + 1, k);
      PiecesDiffer(s, pieces, k, k);
      assert rest[1] == PieceAt(s, pieces, k + 1);
      if |copies| > 1 { assert copies[1] in copies; }
      assert |copies + h| > 1 ==> (copies + h)[1] == PieceAt(s, pieces, k);
    }
  }

  /** Every piece from the k-th on is buffered or still to come. */
  ghost predicate AllThere(d: Dir, s: ByteStream, pieces: seq<seq<byte>>, k: nat, xs: seq<Segment>) {
    forall j | k <= j < |pieces| :: PieceAt(s, pieces, j) in d.buffer || PieceAt(s, pieces, j) in xs
  }

  /** A segment that is not the expected one is dropped or buffered. */
  lemma NotExpected(d: Dir, s: ByteStream, pieces: seq<seq<byte>>, k: nat, x: Segment, xs: seq<Segment>)
    requires Cut(s, pieces) && Expects(d, s, pieces, k) && IndexOf(d.buffer, d.next) == -1 && IsPiece(s, pieces, x)
    requires AllThere(d, s, pieces, k, [x] + xs) && d.next != x.seqNumber
    ensures Handed(d, x) == [] && !Skips(d, x)
    ensures var r := Reassembled(false, d, x.seqNumber, x.data);
      r.ok ==> r.dir.buffer == if d.next > x.seqNumber then d.buffer else d.buffer + [x]
    ensures var r := Reassembled(false, d, x.seqNumber, x.data);
      if r.ok then Expects(r.dir, s, pieces, k) && IndexOf(r.dir.buffer, r.dir.next) == -1 && AllThere(r.dir, s, pieces, k, xs)
      else AllPieces(s, pieces)[k..] != []
  {
    hide Cut, Offset, IsPiece, PieceAt;
    PieceIs(s, pieces, x, k);
    if d.next > x.seqNumber {
      forall j | k <= j < |pieces| ensures PieceAt(s, pieces, j) != x {
        Ascending(s, pieces, k, j);
      }
    }
  }

  lemma Ascending(s: ByteStream, pieces: seq<seq<byte>>, k: nat, j: nat)
    requires Cut(s, pieces) && k <= j < |pieces|
    ensures s.base + Offset(pieces, k) <= PieceAt(s, pieces, j).seqNumber
  {
    if k < j { OffsetGrows(pieces, k, j); }
  }

  /** The expected piece arrives and no buffered one joins on. */
  lemma InOrder(d: Dir, s: ByteStream, pieces: seq<seq<byte>>, k: nat, x: Segment, xs: seq<Segment>)
    requires Cut(s, pieces) && Expects(d, s, pieces, k) && IsPiece(s, pieces, x) && d.next == x.seqNumber
    requires AllThere(d, s, pieces, k, [x] + xs) && !Skips(d, x)
    ensures k < |pieces| && x == PieceAt(s, pieces, k) && Handed(d, x) == [x]
    ensures var r := Reassembled(false, d, x.seqNumber, x.data);
      && r.ok && Expects(r.dir, s, pieces, k + 1) && IndexOf(r.dir.buffer, r.dir.next) == -1
      && AllThere(r.dir, s, pieces, k + 1, xs) && r.dir.buffer == d.buffer
  {
    hide Cut, Offset, IsPiece, IndexOf, Without;
    PieceIs(s, pieces, x, k);
    BehindPiece(s, pieces, k);
    hide PieceAt;
    PiecesDiffer(s, pieces, k, k);
    forall j | k + 1 <= j < |pieces| ensures PieceAt(s, pieces, j) != x {
      PiecesDiffer(s, pieces, j, k);
    }
  }

  /** The expected piece arrives and the one behind it is buffered. */
  lemma Skipping(d: Dir, s: ByteStream, pieces: seq<seq<byte>>, k: nat, x: Segment, xs: seq<Segment>)
    requires Cut(s, pieces) && Expects(d, s, pieces, k) && IsPiece(s, pieces, x) && Skips(d, x)
    requires forall y | y in xs :: IsPiece(s, pieces, y)
    ensures var r := Reassembled(false, d, x.seqNumber, x.data);
      && r.ok && k + 1 < |pieces|
      && (Handed(d, x) + HandedAll(r.dir, xs) == AllPieces(s, pieces)[k..]
          <==> ReAssembleAll(false, r.dir, xs).ok && OnlyLastSkips(d, s, pieces, [x] + xs))
  {
    hide Cut, Offset, IsPiece, Drain, Drained, HandedAll, ReAssembleAll, Copies;
    PieceIs(s, pieces, x, k);
    BehindPiece(s, pieces, k);
    var e := d.(next := (d.next + |x.data|) % UINT32);
    PieceIs(s, pieces, e.buffer[IndexOf(e.buffer, e.next)], k + 1);
    hide IndexOf;
    DrainsCopies(e, s, pieces, k + 1);
    DrainsSome(e);
    var copies, f := Drained(e), Drain(false, e).dir;
    BehindSkip(f, s, pieces, k + 1, copies, xs);
    hide Expects, PieceAt;
    PiecesDiffer(s, pieces, |pieces| - 1, k + 1);
    OneFirst(x, copies, HandedAll(f, xs), AllPieces(s, pieces), k);
    assert ([x] + xs)[1..] == xs;
  }

  lemma DrainsSome(d: Dir)
    requires IndexOf(d.buffer, d.next) != -1
    ensures Drained(d) != []
  {
  }

  lemma OneFirst<T>(x: T, a: seq<T>, b: seq<T>, all: seq<T>, k: nat)
    requires k < |all| && all[k] == x
    ensures [x] + a + b == all[k..] <==> a + b == all[k + 1..]
  {
    assert all[k..] == [x] + all[k + 1..];
    assert [x] + a + b == [x] + (a + b);
    assert ([x] + (a + b))[1..] == a + b;
  }

  lemma Missing(d: Dir, s: ByteStream, pieces: seq<seq<byte>>, k: nat)
    requires Expects(d, s, pieces, k) && k < |pieces| && IndexOf(d.buffer, d.next) == -1
    ensures !AllThere(d, s, pieces, k, [])
  {
    assert PieceAt(s, pieces, k) !in d.buffer;
  }

  /** From a state in which every call so far did as intended. */
  lemma {:induction false} RunHandsOver(d: Dir, s: ByteStream, pieces: seq<seq<byte>>, k: nat, xs: seq<Segment>)
    requires Cut(s, pieces) && Expects(d, s, pieces, k) && IndexOf(d.buffer, d.next) == -1
    requires AllThere(d, s, pieces, k, xs) && forall x | x in xs :: IsPiece(s, pieces, x)
    ensures HandedAll(d, xs) == AllPieces(s, pieces)[k..]
      <==> ReAssembleAll(false, d, xs).ok && (NeverSkips(d, xs) || OnlyLastSkips(d, s, pieces, xs))
    decreases |xs|
  {
    hide IndexOf, Cut, Offset, IsPiece, AllThere, Skips, PieceAt, Copies, Reassembled, Handed;
    if xs == [] {
      if k < |pieces| { Missing(d, s, pieces, k); }
    } else {
      var x, rest := xs[0], xs[1..];
      assert xs == [x] + rest;
      var r := Reassembled(false, d, x.seqNumber, x.data);
      if Skips(d, x) {
        Skipping(d, s, pieces, k, x, rest);
      } else if d.next == x.seqNumber {
        InOrder(d, s, pieces, k, x, rest);
        RunHandsOver(r.dir, s, pieces, k + 1, rest);
      } else {
        NotExpected(d, s, pieces, k, x, rest);
        if r.ok { RunHandsOver(r.dir, s, pieces, k, rest); }
      }
    }
  }

  /** When all pieces arrive the code hands over each of them once and in order exactly if the
    * buffer never overflows and no call skips, or only the one before the last piece does. */
  lemma {:induction false} HandedAsRun(s: ByteStream, pieces: seq<seq<byte>>, xs: seq<Segment>)
    requires Cut(s, pieces) && forall x | x in xs :: IsPiece(s, pieces, x)
    requires forall k | 0 <= k < |pieces| :: PieceAt(s, pieces, k) in xs
    ensures var d := Dir(s.base, []);
      HandedAll(d, xs) == AllPieces(s, pieces)
      <==> ReAssembleAll(false, d, xs).ok && (NeverSkips(d, xs) || OnlyLastSkips(d, s, pieces, xs))
  {
    RunHandsOver(Dir(s.base, []), s, pieces, 0, xs);
  }

  // ---- and what that means for the bytes ----

  /** Neighbouring pieces begin with different bytes, so that none can stand for the other. */
  predicate Distinct(pieces: seq<seq<byte>>) {
    (forall k | 0 <= k < |pieces| :: pieces[k] != [])
    && forall k | 0 <= k < |pieces| - 1 :: pieces[k][0] != pieces[k + 1][0]
  }

  /** The k-th piece, or none, was handed over last: then come copies of it or the next one. */
  predicate Walks(s: ByteStream, pieces: seq<seq<byte>>, k: int, segments: seq<Segment>)
    requires -1 <= k < |pieces|
    decreases |segments|
  {
    || segments == []
    || (k >= 0 && segments[0] == PieceAt(s, pieces, k) && Walks(s, pieces, k, segments[1..]))
    || (k + 1 < |pieces| && segments[0] == PieceAt(s, pieces, k + 1) && Walks(s, pieces, k + 1, segments[1..]))
  }

  lemma {:induction false} CopiesWalk(s: ByteStream, pieces: seq<seq<byte>>, k: nat, copies: seq<Segment>, rest: seq<Segment>)
    requires k < |pieces| && (forall x | x in copies :: x == PieceAt(s, pieces, k)) && Walks(s, pieces, k, rest)
    ensures Walks(s, pieces, k, copies + rest)
    ensures copies != [] ==> Walks(s, pieces, k - 1, copies + rest)
  {
    if copies == [] {
      assert copies + rest == rest;
    } else {
      assert forall x | x in copies[1..] :: x in copies;
      CopiesWalk(s, pieces, k, copies[1..], rest);
      assert (copies + rest)[1..] == copies[1..] + rest;
      assert copies[0] in copies;
    }
  }

  lemma {:induction false} HandedWalks(d: Dir, s: ByteStream, pieces: seq<seq<byte>>, k: nat, last: int, xs: seq<Segment>)
    requires Cut(s, pieces) && Expects(d, s, pieces, k) && forall x | x in xs :: IsPiece(s, pieces, x)
    requires k - 1 <= last <= k && last < |pieces|
    ensures Walks(s, pieces, last, HandedAll(d, xs))
    decreases |xs|
  {
    hide Cut, Expects, IsPiece, Reassembled, Handed, Walks, PieceAt;
    NothingWalks(s, pieces, last);
    if xs != [] {
      var rest := xs[1..];
      var r, copies := OneHanded(d, s, pieces, k, xs[0]);
      if d.next != xs[0].seqNumber {
        if r.ok {
          HandedWalks(r.dir, s, pieces, k, last, rest);
          assert HandedAll(d, xs) == HandedAll(r.dir, rest);
        } else {
          assert HandedAll(d, xs) == [];
        }
      } else {
        var h := HandedAll(r.dir, rest);
        HandedWalks(r.dir, s, pieces, k + 1, k, rest);
        if k + 1 < |pieces| { HandedWalks(r.dir, s, pieces, k + 1, k + 1, rest); }
        AddedWalks(s, pieces, k, last, copies, h);
      }
    }
  }

  /** One call hands over nothing, or the expected piece and copies of the one behind it. */
  lemma OneHanded(d: Dir, s: ByteStream, pieces: seq<seq<byte>>, k: nat, x: Segment) returns (r: Result, copies: seq<Segment>)
    requires Cut(s, pieces) && Expects(d, s, pieces, k) && IsPiece(s, pieces, x)
    ensures r == Reassembled(false, d, x.seqNumber, x.data)
    ensures d.next != x.seqNumber ==> Handed(d, x) == [] && Expects(r.dir, s, pieces, k)
    ensures d.next == x.seqNumber ==> r.ok && k < |pieces| && Expects(r.dir, s, pieces, k + 1)
    ensures d.next == x.seqNumber ==> Handed(d, x) == [PieceAt(s, pieces, k)] + copies
    ensures d.next == x.seqNumber ==> forall y | y in copies :: k + 1 < |pieces| && y == PieceAt(s, pieces, k + 1)
  {
    hide Cut, Offset, IsPiece, Drain, Drained, IndexOf;
    PieceIs(s, pieces, x, k);
    r := Reassembled(false, d, x.seqNumber, x.data);
    var e := d.(next := (d.next + |x.data|) % UINT32);
    copies := Drained(e);
    if d.next == x.seqNumber {
      BehindPiece(s, pieces, k);
      DrainsCopies(e, s, pieces, k + 1);
    }
  }

  lemma AddedWalks(s: ByteStream, pieces: seq<seq<byte>>, k: nat, last: int, copies: seq<Segment>, h: seq<Segment>)
    requires k < |pieces| && k - 1 <= last <= k && Walks(s, pieces, k, h)
    requires k + 1 < |pieces| ==> Walks(s, pieces, k + 1, h)
    requires forall y | y in copies :: k + 1 < |pieces| && y == PieceAt(s, pieces, k + 1)
    ensures Walks(s, pieces, last, [PieceAt(s, pieces, k)] + copies + h)
  {
    hide Walks, PieceAt;
    if copies == [] {
      assert copies + h == h;
    } else {
      assert copies[0] in copies;
      CopiesWalk(s, pieces, k + 1, copies, h);
    }
    FirstWalks(s, pieces, k, last, copies + h);
    assert [PieceAt(s, pieces, k)] + copies + h == [PieceAt(s, pieces, k)] + (copies + h);
  }

  lemma NothingWalks(s: ByteStream, pieces: seq<seq<byte>>, k: int)
    requires -1 <= k < |pieces|
    ensures Walks(s, pieces, k, [])
  {
  }

  lemma FirstWalks(s: ByteStream, pieces: seq<seq<byte>>, k: nat, last: int, segments: seq<Segment>)
    requires k < |pieces| && k - 1 <= last <= k && Walks(s, pieces, k, segments)
    ensures Walks(s, pieces, last, [PieceAt(s, pieces, k)] + segments)
  {
    assert ([PieceAt(s, pieces, k)] + segments)[1..] == segments;
  }

  /** With distinct neighbours only the pieces themselves, each once, make up the stream. */
  lemma {:induction false} WalkIsAll(s: ByteStream, pieces: seq<seq<byte>>, k: int, segments: seq<Segment>)
    requires Distinct(pieces) && -1 <= k < |pieces| && Walks(s, pieces, k, segments)
    requires Joined(DataOf(segments)) == Joined(pieces[k + 1..])
    ensures segments == AllPieces(s, pieces)[k + 1..]
    decreases |segments|
  {
    if segments == [] {
      if k + 1 < |pieces| { BeginsWith(pieces[k + 1..]); }
    } else {
      NextWalks(s, pieces, k, segments);
      WalkIsAll(s, pieces, k + 1, segments[1..]);
      var all := AllPieces(s, pieces);
      hide *;
      assert all[k + 1..] == [all[k + 1]] + all[k + 2..];
      assert segments == [segments[0]] + segments[1..];
    }
  }

  lemma SameBehind(a: seq<byte>, b: seq<byte>, c: seq<byte>)
    requires a + b == a + c
    ensures b == c
  {
    assert (a + b)[|a|..] == b && (a + c)[|a|..] == c;
  }

  /** What begins the rest of the stream is the next piece. */
  lemma NextWalks(s: ByteStream, pieces: seq<seq<byte>>, k: int, segments: seq<Segment>)
    requires Distinct(pieces) && -1 <= k < |pieces| && Walks(s, pieces, k, segments) && segments != []
    requires Joined(DataOf(segments)) == Joined(pieces[k + 1..])
    ensures k + 1 < |pieces| && segments[0] == PieceAt(s, pieces, k + 1) && Walks(s, pieces, k + 1, segments[1..])
    ensures Joined(DataOf(segments[1..])) == Joined(pieces[k + 2..])
  {
    var rest, given := pieces[k + 1..], DataOf(segments);
    if rest != [] { BeginsWith(rest); }
    BeginsWith(given);
    hide Joined;
    assert given[0] == segments[0].data;
    hide DataOf;
    assert rest != [] && segments[0] == PieceAt(s, pieces, k + 1);
    hide Walks;
    DataOfRest(segments);
    assert rest[1..] == pieces[k + 2..];
    SameBehind(rest[0], Joined(given[1..]), Joined(rest[1..]));
  }

  lemma DataOfRest(segments: seq<Segment>)
    requires segments != []
    ensures DataOf(segments)[1..] == DataOf(segments[1..])
  {
  }

  lemma BeginsWith(data: seq<seq<byte>>)
    requires data != []
    ensures Joined(data) == data[0] + Joined(data[1..])
    ensures data[0] != [] ==> Joined(data) != [] && Joined(data)[0] == data[0][0]
  {
  }

  /** The listener gets the whole stream from the code as written exactly then. */
  lemma {:induction false} DeliveredAsRun(s: ByteStream, pieces: seq<seq<byte>>, xs: seq<Segment>)
    requires Cut(s, pieces) && Distinct(pieces) && forall x | x in xs :: IsPiece(s, pieces, x)
    requires forall k | 0 <= k < |pieces| :: PieceAt(s, pieces, k) in xs
    ensures var d := Dir(s.base, []);
      Joined(ReAssembleAll(false, d, xs).data) == s.bytes
      <==> ReAssembleAll(false, d, xs).ok && (NeverSkips(d, xs) || OnlyLastSkips(d, s, pieces, xs))
  {
    hide Distinct, ReAssembleAll, NeverSkips, OnlyLastSkips, HandedAll, Walks;
    var d := Dir(s.base, []);
    GivenIsHanded(d, xs);
    HandedAsRun(s, pieces, xs);
    assert DataOf(AllPieces(s, pieces)) == pieces;
    if pieces == [] {
      NoPieces(s, d, xs);
    } else if Joined(ReAssembleAll(false, d, xs).data) == s.bytes {
      HandedWalks(d, s, pieces, 0, -1, xs);
      assert pieces[-1 + 1..] == pieces;
      WalkIsAll(s, pieces, -1, HandedAll(d, xs));
      assert AllPieces(s, pieces)[0..] == AllPieces(s, pieces);
    }
  }

  lemma NoPieces(s: ByteStream, d: Dir, xs: seq<Segment>)
    requires forall x | x in xs :: IsPiece(s, [], x)
    ensures HandedAll(d, xs) == [] == AllPieces(s, [])
  {
    assert xs != [] ==> IsPiece(s, [], xs[0]);
  }

  /** As long as no call skips, the code does what it would do with the advance. */
  lemma {:induction false} SameAsIntended(d: Dir, s: ByteStream, xs: seq<Segment>)
    requires Follows(d, s) && forall x | x in xs :: s.Contains(x)
    requires NeverSkips(d, xs)
    ensures ReAssembleAll(false, d, xs) == ReAssembleAll(true, d, xs)
    decreases |xs|
  {
    hide Reassembled, Skips;
    if xs != [] {
      OneCall(d, s, [], xs[0]);
      SameAsIntended(Reassembled(false, d, xs[0].seqNumber, xs[0].data).dir, s, xs[1..]);
    }
  }

  /** Pieces that do not begin differently can stand for each other by chance: of three equal
    * bytes the second is handed over twice and the last never. */
  lemma SameByChance(n: nat, x: byte)
    requires n + 3 < UINT32
    ensures var a, b, c := Segment(n, [x]), Segment(n + 1, [x]), Segment(n + 2, [x]);
      HandedAll(Dir(n, []), [b, b, a, c]) == [a, b, b]
      && Joined(ReAssembleAll(false, Dir(n, []), [b, b, a, c]).data) == [x, x, x]
  {
    var a, b, c := Segment(n, [x]), Segment(n + 1, [x]), Segment(n + 2, [x]);
    HandedThere(n, a, b, c);
    hide *;
    GivenIsHanded(Dir(n, []), [b, b, a, c]);
    DataOfThree(a, b);
    JoinedTwice(x);
  }

  lemma HandedThere(n: nat, a: Segment, b: Segment, c: Segment)
    requires n + 3 < UINT32 && a.seqNumber == n && |a.data| == 1 && b.seqNumber == n + 1 < c.seqNumber
    ensures HandedAll(Dir(n, []), [b, b, a, c]) == [a, b, b]
  {
    hide *;
    WaitsFirst(Dir(n, []), b, [b, a, c]);
    WaitsFirst(Dir(n, [b]), b, [a, c]);
    assert [] + [b] == [b] && [b] + [b] == [b, b];
    assert [b] + [b, a, c] == [b, b, a, c] && [b] + [a, c] == [b, a, c];
    AfterBoth(n, a, b, c);
  }

  lemma AfterBoth(n: nat, a: Segment, b: Segment, c: Segment)
    requires n + 3 < UINT32 && a.seqNumber == n && |a.data| == 1 && b.seqNumber == n + 1 < c.seqNumber
    ensures HandedAll(Dir(n, [b, b]), [a, c]) == [a, b, b]
  {
    hide *;
    FirstOf(Dir(n, [b, b]), a, [c]);
    HandsOverTwo(n, a, b);
    WaitsFirst(Dir(n + 1, []), c, []);
    NoneHanded(Dir(n + 1, [] + [c]));
    assert [a] + [c] == [a, c] && [c] + [] == [c];
  }

  lemma WaitsFirst(d: Dir, x: Segment, xs: seq<Segment>)
    requires d.next < x.seqNumber && |d.buffer| <= 1
    ensures HandedAll(d, [x] + xs) == HandedAll(Dir(d.next, d.buffer + [x]), xs)
  {
    FirstOf(d, x, xs);
    hide HandedAll;
  }

  lemma FirstOf(d: Dir, x: Segment, xs: seq<Segment>)
    ensures var r := Reassembled(false, d, x.seqNumber, x.data);
      HandedAll(d, [x] + xs) == Handed(d, x) + if r.ok then HandedAll(r.dir, xs) else []
  {
    assert ([x] + xs)[1..] == xs;
  }

  lemma NoneHanded(d: Dir)
    ensures HandedAll(d, []) == []
  {
  }

  lemma DataOfThree(a: Segment, b: Segment)
    ensures DataOf([a, b, b]) == [a.data, b.data, b.data]
  {
  }

  lemma HandsOverTwo(n: nat, a: Segment, b: Segment)
    requires n + 1 < UINT32 && a.seqNumber == n && |a.data| == 1 && b.seqNumber == n + 1
    ensures var r := Reassembled(false, Dir(n, [b, b]), n, a.data); r.ok && r.dir == Dir(n + 1, [])
    ensures Handed(Dir(n, [b, b]), a) == [a, b, b]
  {
    hide *;
    DrainsTwo(n + 1, b);
    InPlace(Dir(n, [b, b]), a);
  }

  lemma InPlace(d: Dir, x: Segment)
    requires x.seqNumber == d.next && d.next + |x.data| < UINT32
    ensures Reassembled(false, d, x.seqNumber, x.data).ok
    ensures Reassembled(false, d, x.seqNumber, x.data).dir == Drain(false, Dir(d.next + |x.data|, d.buffer)).dir
    ensures Handed(d, x) == [x] + Drained(Dir(d.next + |x.data|, d.buffer))
  {
    hide Drain, Drained;
  }

  lemma DrainsTwo(n: nat, b: Segment)
    requires b.seqNumber == n
    ensures Drained(Dir(n, [b, b])) == [b, b] && Drain(false, Dir(n, [b, b])).dir == Dir(n, [])
  {
    hide *;
    DrainsOne(n, [], b);
    DrainsOne(n, [b], b);
    DrainsNone(n);
    assert [b] + [] == [b] && [b] + [b] == [b, b];
  }

  lemma DrainsNone(n: nat)
    ensures Drained(Dir(n, [])) == [] && Drain(false, Dir(n, [])).dir == Dir(n, [])
  {
  }

  lemma DrainsOne(n: nat, rest: seq<Segment>, b: Segment)
    requires b.seqNumber == n
    ensures Drained(Dir(n, [b] + rest)) == [b] + Drained(Dir(n, rest))
    ensures Drain(false, Dir(n, [b] + rest)).dir == Drain(false, Dir(n, rest)).dir
  {
    assert IndexOf([b] + rest, n) == 0;
    assert Without([b] + rest, 0) == rest;
  }

  lemma JoinedTwice(x: byte)
    ensures Joined([[x], [x], [x]]) == [x, x, x]
  {
    JoinedConcat([[x]], [[x], [x]]);
    JoinedConcat([[x]], [[x]]);
    assert [[x]] + [[x], [x]] == [[x], [x], [x]] && [[x]] + [[x]] == [[x], [x]];
    var one := [[x]];
    assert one[1..] == [];
  }
}
