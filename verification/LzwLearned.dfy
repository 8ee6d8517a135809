/** Which words the LZW dictionary learns, told from the data alone: by the one way to cut it into
  * phrases of which each is new but for its last byte. */
module LzwLearned {
  import opened Bytes
  import opened LzwWords

  /** A stretch of the data that was added as a word, or given up as too long. */
  datatype Phrase = Phrase(start: nat, end: nat, added: bool)

  /** Where the phrase behind the first `n` begins: at the last byte of a word that was added. */
  function StartAt(ps: seq<Phrase>, n: nat): int
    requires n <= |ps|
  {
    if n == 0 then 0 else if ps[n - 1].added then ps[n - 1].end - 1 else ps[n - 1].end
  }

  predicate Within(data: seq<byte>, p: Phrase) {
    p.start < p.end <= |data| && p.end - p.start <= LZW_WORD_LEN
  }

  function WordOf(data: seq<byte>, p: Phrase): seq<byte>
    requires Within(data, p)
  {
    data[p.start..p.end]
  }

  predicate AllWithin(data: seq<byte>, ps: seq<Phrase>) {
    forall i | 0 <= i < |ps| :: Within(data, ps[i])
  }

  predicate IsAdded(data: seq<byte>, ps: seq<Phrase>, i: nat, w: seq<byte>)
    requires i < |ps| && AllWithin(data, ps)
  {
    ps[i].added && WordOf(data, ps[i]) == w
  }

  /** A single byte, or a word that one of the first `n` phrases added. */
  predicate Known(data: seq<byte>, ps: seq<Phrase>, n: nat, w: seq<byte>)
    requires n <= |ps| && AllWithin(data, ps)
  {
    |w| == 1 || exists i | 0 <= i < n :: IsAdded(data, ps, i, w)
  }

  /** A phrase is added if it is new and only its last byte makes it so; it is given up if it is known
    * and has 16 bytes. */
  predicate Proper(data: seq<byte>, ps: seq<Phrase>, n: nat)
    requires n < |ps| && AllWithin(data, ps)
  {
    var w := WordOf(data, ps[n]);
    && ps[n].start == StartAt(ps, n)
    && if ps[n].added then |w| > 1 && !Known(data, ps, n, w) && Known(data, ps, n, w[..|w| - 1])
       else |w| == LZW_WORD_LEN && Known(data, ps, n, w)
  }

  /** The data cut into such phrases, and a known rest from `from` on. */
  predicate Phrases(data: seq<byte>, ps: seq<Phrase>, from: nat) {
    && AllWithin(data, ps) && (forall n | 0 <= n < |ps| :: Proper(data, ps, n))
    && from == StartAt(ps, |ps|) && from <= |data| <= from + LZW_WORD_LEN
    && (data != [] ==> from < |data| && Known(data, ps, |ps|, data[from..]))
  }

  /** How many of the first `n` phrases were added. */
  function Count(ps: seq<Phrase>, n: nat): nat
    requires n <= |ps|
  {
    if n == 0 then 0 else Count(ps, n - 1) + if ps[n - 1].added then 1 else 0
  }

  /** The words are the known ones, numbered in their order, and the rest is pending. */
  ghost predicate Describes(d: Dict, data: seq<byte>, ps: seq<Phrase>, from: nat) {
    && Phrases(data, ps, from) && d.pending == data[from..] && d.nextIdx == LZW_DICT_EOF + 1 + Count(ps, |ps|)
    && (forall w :: w in d.index <==> Known(data, ps, |ps|, w))
    && forall i | 0 <= i < |ps| && ps[i].added :: Numbers(d, WordOf(data, ps[i]), LZW_DICT_EOF + 1 + Count(ps, i))
  }

  predicate Numbers(d: Dict, w: seq<byte>, n: nat) { w in d.index && d.index[w] == n }

  lemma NothingLearned()
    ensures Describes(Initial(), [], [], 0)
  {
    hide Singles;
    var d := Initial();
    assert d.index == Singles(256) && d.pending == [] && d.nextIdx == LZW_DICT_EOF + 1;
    hide Initial;
    assert forall w :: w in d.index <==> |w| == 1;
  }

  /** More data leaves the phrases before as they are. */
  lemma KnownStays(data: seq<byte>, more: seq<byte>, ps: seq<Phrase>, qs: seq<Phrase>, n: nat, w: seq<byte>)
    requires AllWithin(data, ps) && data <= more && AllWithin(more, qs) && ps <= qs && n <= |ps|
    ensures Known(more, qs, n, w) <==> Known(data, ps, n, w)
  {
    forall i | 0 <= i < n ensures IsAdded(more, qs, i, w) <==> IsAdded(data, ps, i, w) {
      WordStays(data, more, ps[i]);
    }
  }

  lemma WordStays(data: seq<byte>, more: seq<byte>, p: Phrase)
    requires Within(data, p) && data <= more
    ensures WordOf(more, p) == WordOf(data, p)
  {
  }

  lemma {:induction false} CountStays(ps: seq<Phrase>, qs: seq<Phrase>, n: nat)
    requires ps <= qs && n <= |ps|
    ensures Count(qs, n) == Count(ps, n)
  {
    if n > 0 { CountStays(ps, qs, n - 1); }
  }

  lemma ProperStays(data: seq<byte>, more: seq<byte>, ps: seq<Phrase>, qs: seq<Phrase>, n: nat)
    requires AllWithin(data, ps) && data <= more && AllWithin(more, qs) && ps <= qs && n < |ps|
    requires Proper(data, ps, n)
    ensures Proper(more, qs, n)
  {
    hide Known;
    WordStays(data, more, ps[n]);
    var w := WordOf(data, ps[n]);
    KnownStays(data, more, ps, qs, n, w);
    KnownStays(data, more, ps, qs, n, w[..|w| - 1]);
  }

  lemma Rest(data: seq<byte>, b: byte, from: nat)
    requires from <= |data|
    ensures (data + [b])[from..] == data[from..] + [b] && (data + [b])[|data|..] == [b] && data <= data + [b]
  {
  }

  /** The phrases so far, seen in more data. */
  lemma DescribesMore(d: Dict, data: seq<byte>, b: byte, ps: seq<Phrase>, from: nat, qs: seq<Phrase>)
    requires Describes(d, data, ps, from) && ps <= qs && AllWithin(data + [b], qs)
    ensures forall n | 0 <= n < |ps| :: Proper(data + [b], qs, n)
    ensures forall w :: Known(data + [b], qs, |ps|, w) <==> w in d.index
    ensures forall i | 0 <= i < |ps| && qs[i].added :: Numbers(d, WordOf(data + [b], qs[i]), LZW_DICT_EOF + 1 + Count(qs, i))
    ensures Count(qs, |ps|) == Count(ps, |ps|)
  {
    hide Known, Proper;
    var more := data + [b];
    forall n | 0 <= n < |ps| ensures Proper(more, qs, n) { ProperStays(data, more, ps, qs, n); }
    forall w ensures Known(more, qs, |ps|, w) <==> w in d.index { KnownStays(data, more, ps, qs, |ps|, w); }
    forall i | 0 <= i < |ps| && qs[i].added ensures Numbers(d, WordOf(more, qs[i]), LZW_DICT_EOF + 1 + Count(qs, i)) {
      WordStays(data, more, ps[i]);
      CountStays(ps, qs, i);
    }
    CountStays(ps, qs, |ps|);
  }

  /** The pending word grows. */
  lemma Grows(d: Dict, data: seq<byte>, b: byte, ps: seq<Phrase>, from: nat)
    requires Describes(d, data, ps, from) && |d.pending| < LZW_WORD_LEN && d.pending + [b] in d.index
    ensures Describes(d.(pending := d.pending + [b]), data + [b], ps, from)
  {
    DescribesMore(d, data, b, ps, from, ps);
    Rest(data, b, from);
    hide Known, Proper;
  }

  /** The pending word is too long to grow, and is given up. */
  lemma GivesUp(d: Dict, data: seq<byte>, b: byte, ps: seq<Phrase>, from: nat)
    requires Describes(d, data, ps, from) && |d.pending| == LZW_WORD_LEN && [b] in d.index
    ensures Describes(d.(pending := [b]), data + [b], ps + [Phrase(from, |data|, false)], |data|)
  {
    hide Known, Proper;
    var qs, more := ps + [Phrase(from, |data|, false)], data + [b];
    GivenUpIsProper(d, data, b, ps, from);
    DescribesMore(d, data, b, ps, from, qs);
    Rest(data, b, from);
    forall w ensures Known(more, qs, |qs|, w) <==> w in d.index { LastAdds(more, qs, w); }
    IsDescribed(d.(pending := [b]), d, more, qs, |data|, |ps|);
  }

  /** The words are as before; only the phrases and the pending word are others. */
  lemma IsDescribed(e: Dict, d: Dict, data: seq<byte>, qs: seq<Phrase>, from: nat, n: nat)
    requires AllWithin(data, qs) && n + 1 == |qs| && !qs[n].added && from + 1 == |data| && from == qs[n].end
    requires forall i | 0 <= i <= n :: Proper(data, qs, i)
    requires forall w :: Known(data, qs, |qs|, w) <==> w in d.index
    requires forall i | 0 <= i < n && qs[i].added :: Numbers(d, WordOf(data, qs[i]), LZW_DICT_EOF + 1 + Count(qs, i))
    requires e.index == d.index && e.nextIdx == d.nextIdx == LZW_DICT_EOF + 1 + Count(qs, n) && e.pending == data[from..]
    requires data[from..] in d.index
    ensures Describes(e, data, qs, from)
  {
    hide Known, Proper, WordOf;
  }

  lemma GivenUpIsProper(d: Dict, data: seq<byte>, b: byte, ps: seq<Phrase>, from: nat)
    requires Describes(d, data, ps, from) && |d.pending| == LZW_WORD_LEN
    ensures var qs := ps + [Phrase(from, |data|, false)];
      AllWithin(data + [b], qs) && Proper(data + [b], qs, |ps|)
  {
    var qs, more := ps + [Phrase(from, |data|, false)], data + [b];
    assert WordOf(more, qs[|ps|]) == d.pending;
    KnownStays(data, more, ps, qs, |ps|, d.pending);
    hide Known;
    assert StartAt(qs, |ps|) == StartAt(ps, |ps|);
  }

  /** The last phrase adds its word, if it adds one. */
  lemma LastAdds(data: seq<byte>, qs: seq<Phrase>, w: seq<byte>)
    requires qs != [] && AllWithin(data, qs)
    ensures Known(data, qs, |qs|, w) <==> Known(data, qs, |qs| - 1, w) || IsAdded(data, qs, |qs| - 1, w)
  {
  }

  /** The pending word with one more byte is new, and is added. */
  lemma Adds(d: Dict, data: seq<byte>, b: byte, ps: seq<Phrase>, from: nat)
    requires Describes(d, data, ps, from) && |d.pending| < LZW_WORD_LEN && d.pending + [b] !in d.index && [b] in d.index
    requires d.nextIdx < |d.dec|
    ensures Describes(Dict(d.index[d.pending + [b] := d.nextIdx], d.dec[d.nextIdx := d.pending + [b]], d.nextIdx + 1, [b]),
                      data + [b], ps + [Phrase(from, |data| + 1, true)], |data|)
  {
    hide Known, Proper;
    var qs, more := ps + [Phrase(from, |data| + 1, true)], data + [b];
    var word := d.pending + [b];
    AddedIsProper(d, data, b, ps, from);
    DescribesMore(d, data, b, ps, from, qs);
    Rest(data, b, from);
    forall w ensures Known(more, qs, |qs|, w) <==> w in d.index || w == word { LastAdds(more, qs, w); }
    hide WordOf;
    IsDescribedToo(d, word, more, qs, |data|, |ps|);
  }

  lemma AddedIsProper(d: Dict, data: seq<byte>, b: byte, ps: seq<Phrase>, from: nat)
    requires Describes(d, data, ps, from) && |d.pending| < LZW_WORD_LEN && d.pending + [b] !in d.index && [b] in d.index
    ensures var qs := ps + [Phrase(from, |data| + 1, true)];
      AllWithin(data + [b], qs) && Proper(data + [b], qs, |ps|) && WordOf(data + [b], qs[|ps|]) == d.pending + [b]
  {
    hide Known;
    var qs, more, word := ps + [Phrase(from, |data| + 1, true)], data + [b], d.pending + [b];
    Rest(data, b, from);
    assert [] + [b] == [b];
    assert WordOf(more, qs[|ps|]) == word && word[..|word| - 1] == d.pending;
    KnownStays(data, more, ps, qs, |ps|, d.pending);
    KnownStays(data, more, ps, qs, |ps|, word);
    assert StartAt(qs, |ps|) == StartAt(ps, |ps|);
  }

  /** One word more, the next number, and its last byte pending. */
  lemma IsDescribedToo(d: Dict, word: seq<byte>, data: seq<byte>, qs: seq<Phrase>, from: nat, n: nat)
    requires AllWithin(data, qs) && n + 1 == |qs| && qs[n].added && from + 1 == |data| == qs[n].end && WordOf(data, qs[n]) == word
    requires word !in d.index && d.nextIdx < |d.dec| && d.nextIdx == LZW_DICT_EOF + 1 + Count(qs, n)
    requires forall i | 0 <= i <= n :: Proper(data, qs, i)
    requires forall w :: Known(data, qs, |qs|, w) <==> w in d.index || w == word
    requires forall i | 0 <= i < n && qs[i].added :: Numbers(d, WordOf(data, qs[i]), LZW_DICT_EOF + 1 + Count(qs, i))
    requires data[from..] in d.index
    ensures Describes(Dict(d.index[word := d.nextIdx], d.dec[d.nextIdx := word], d.nextIdx + 1, data[from..]), data, qs, from)
  {
    hide Known, Proper, WordOf;
  }

  lemma SingleIsWord(d: Dict, b: byte)
    requires Trie(d)
    ensures [b] in d.index && |d.dec| == LZW_DICT_SIZE
  {
  }

  lemma PendingIsShort(d: Dict, data: seq<byte>, ps: seq<Phrase>, from: nat)
    requires Describes(d, data, ps, from)
    ensures |d.pending| <= LZW_WORD_LEN
  {
    hide Known, Proper;
  }

  /** The three things that a byte can do. */
  lemma LearnIs(d: Dict, b: byte)
    requires |d.dec| == LZW_DICT_SIZE && d.nextIdx < LZW_DICT_SIZE && [b] in d.index && |d.pending| <= LZW_WORD_LEN
    ensures Learn(d, b) ==
      if |d.pending| == LZW_WORD_LEN then d.(pending := [b])
      else if d.pending + [b] in d.index then d.(pending := d.pending + [b])
      else Dict(d.index[d.pending + [b] := d.nextIdx], d.dec[d.nextIdx := d.pending + [b]], d.nextIdx + 1, [b])
  {
    assert [] + [b] == [b];
  }

  lemma LearnsOne(d: Dict, data: seq<byte>, b: byte, ps: seq<Phrase>, from: nat) returns (qs: seq<Phrase>, to: nat)
    requires Trie(d) && Describes(d, data, ps, from) && d.nextIdx < LZW_DICT_SIZE
    ensures Describes(Learn(d, b), data + [b], qs, to)
  {
    hide *;
    SingleIsWord(d, b);
    PendingIsShort(d, data, ps, from);
    LearnIs(d, b);
    qs, to := ps, from;
    if |d.pending| == LZW_WORD_LEN {
      GivesUp(d, data, b, ps, from);
      qs, to := ps + [Phrase(from, |data|, false)], |data|;
    } else if d.pending + [b] in d.index {
      Grows(d, data, b, ps, from);
    } else {
      Adds(d, data, b, ps, from);
      qs, to := ps + [Phrase(from, |data| + 1, true)], |data|;
    }
  }

  /** The data, or as much of it as comes before the dictionary is full, is cut into phrases; the words
    * are the single bytes and those that a phrase added, numbered in that order. */
  lemma {:induction false} WordsLearned(data: seq<byte>) returns (n: nat, ps: seq<Phrase>, from: nat)
    ensures var d := LearnAll(Initial(), data);
      n <= |data| && Describes(d, data[..n], ps, from) && (n < |data| ==> d.nextIdx == LZW_DICT_SIZE)
  {
    hide *;
    var d0 := Initial();
    InitialTrie();
    NothingLearned();
    NotOverfull(d0);
    if data == [] {
      n, ps, from := 0, [], 0;
      LearnNone(d0);
    } else {
      var init, b := data[..|data| - 1], data[|data| - 1];
      LearnAllKeepsTrie(d0, init);
      n, ps, from := WordsLearned(init);
      n, ps, from := LearnNext(LearnAll(d0, init), init, b, n, ps, from);
      assert init + [b] == data;
      LearnLast(d0, data);
    }
  }

  lemma LearnNone(d: Dict)
    requires |d.dec| == LZW_DICT_SIZE
    ensures LearnAll(d, []) == d
  {
  }

  lemma LearnLast(d: Dict, data: seq<byte>)
    requires |d.dec| == LZW_DICT_SIZE && data != []
    ensures LearnAll(d, data) == Learn(LearnAll(d, data[..|data| - 1]), data[|data| - 1])
  {
  }

  /** One more byte, whether or not the dictionary is full. */
  lemma LearnNext(d: Dict, init: seq<byte>, b: byte, n0: nat, ps0: seq<Phrase>, from0: nat)
    returns (n: nat, ps: seq<Phrase>, from: nat)
    requires Trie(d) && n0 <= |init| && Describes(d, init[..n0], ps0, from0) && (n0 < |init| ==> d.nextIdx == LZW_DICT_SIZE)
    ensures |d.dec| == LZW_DICT_SIZE && n <= |init| + 1 && Describes(Learn(d, b), (init + [b])[..n], ps, from)
    ensures n < |init| + 1 ==> Learn(d, b).nextIdx == LZW_DICT_SIZE
  {
    hide Describes, Trie, Learn;
    n, ps, from := n0, ps0, from0;
    NotOverfull(d);
    if d.nextIdx < LZW_DICT_SIZE {
      assert init[..|init|] == init;
      ps, from := LearnsOne(d, init, b, ps0, from0);
      n := |init| + 1;
      assert (init + [b])[..n] == init + [b];
    } else {
      FullLearnsNothing(d, b);
      assert (init + [b])[..n] == init[..n];
    }
  }

  lemma FullLearnsNothing(d: Dict, b: byte)
    requires |d.dec| == LZW_DICT_SIZE && d.nextIdx >= LZW_DICT_SIZE
    ensures Learn(d, b) == d
  {
  }

  lemma NotOverfull(d: Dict)
    requires Trie(d)
    ensures d.nextIdx <= LZW_DICT_SIZE == |d.dec|
  {
  }

  // ---- there is only one way to cut the data ----

  lemma {:induction false} KnownPrefix(data: seq<byte>, ps: seq<Phrase>, n: nat, w: seq<byte>, m: nat)
    requires n <= |ps| && AllWithin(data, ps) && (forall i | 0 <= i < n :: Proper(data, ps, i))
    requires Known(data, ps, n, w) && 0 < m <= |w|
    ensures Known(data, ps, n, w[..m])
    decreases |w|
  {
    hide Proper;
    if m == |w| {
      assert w[..m] == w;
    } else {
      var i :| 0 <= i < n && IsAdded(data, ps, i, w);
      var init := w[..|w| - 1];
      assert Known(data, ps, i, init) by { ProperMeans(data, ps, i); }
      assert Known(data, ps, n, init);
      KnownPrefix(data, ps, n, init, m);
      assert init[..m] == w[..m];
    }
  }

  lemma ProperMeans(data: seq<byte>, ps: seq<Phrase>, n: nat)
    requires n < |ps| && AllWithin(data, ps) && Proper(data, ps, n) && ps[n].added
    ensures var w := WordOf(data, ps[n]); |w| > 1 && Known(data, ps, n, w[..|w| - 1])
  {
  }

  /** What is known depends only on the phrases before. */
  lemma SameKnown(data: seq<byte>, a: seq<Phrase>, b: seq<Phrase>, n: nat, w: seq<byte>)
    requires AllWithin(data, a) && AllWithin(data, b) && n <= |a| && n <= |b| && a[..n] == b[..n]
    ensures Known(data, a, n, w) <==> Known(data, b, n, w)
  {
    assert forall i | 0 <= i < n :: a[i] == a[..n][i] == b[..n][i] == b[i];
    forall i | 0 <= i < n ensures IsAdded(data, a, i, w) <==> IsAdded(data, b, i, w) { }
  }

  /** A known stretch that begins with the next phrase of another cut: that phrase is given up there. */
  lemma NoneShorter(data: seq<byte>, a: seq<Phrase>, b: seq<Phrase>, n: nat, to: nat)
    requires AllWithin(data, a) && AllWithin(data, b) && n <= |a| && n < |b| && a[..n] == b[..n] && Proper(data, b, n)
    requires forall i | 0 <= i < n :: Proper(data, a, i)
    requires var from := b[n].start; from < to <= |data| && b[n].end <= to <= from + LZW_WORD_LEN && Known(data, a, n, data[from..to])
    ensures !b[n].added && b[n].end == to
  {
    var from := b[n].start;
    var w := WordOf(data, b[n]);
    KnownPrefix(data, a, n, data[from..to], |w|);
    assert data[from..to][..|w|] == w;
    SameKnown(data, a, b, n, w);
    hide Known;
  }

  /** All of a phrase is known but perhaps its last byte. */
  lemma KnownUpTo(data: seq<byte>, ps: seq<Phrase>, n: nat) returns (to: nat)
    requires n < |ps| && AllWithin(data, ps) && Proper(data, ps, n)
    ensures to == (if ps[n].added then ps[n].end - 1 else ps[n].end) && ps[n].start < to <= |data|
    ensures Known(data, ps, n, data[ps[n].start..to])
    ensures !ps[n].added ==> ps[n].end == ps[n].start + LZW_WORD_LEN
  {
    hide Known;
    var w := WordOf(data, ps[n]);
    to := if ps[n].added then ps[n].end - 1 else ps[n].end;
    if ps[n].added { ButLast(data, ps[n].start, ps[n].end); }
  }

  lemma ButLast(data: seq<byte>, i: nat, j: nat)
    requires i < j <= |data|
    ensures data[i..j][..|data[i..j]| - 1] == data[i..j - 1]
  {
  }

  lemma NotShorter(data: seq<byte>, a: seq<Phrase>, b: seq<Phrase>, n: nat)
    requires AllWithin(data, a) && AllWithin(data, b) && n < |a| && n < |b| && a[..n] == b[..n]
    requires (forall i | 0 <= i <= n :: Proper(data, a, i)) && (forall i | 0 <= i <= n :: Proper(data, b, i))
    requires a[n].start == b[n].start
    ensures b[n].end <= a[n].end
  {
    var from := a[n].start;
    if a[n].end < b[n].end {
      var to := KnownUpTo(data, b, n);
      hide Known;
      NoneShorter(data, b, a, n, to);
    }
  }

  lemma SamePhrase(data: seq<byte>, a: seq<Phrase>, b: seq<Phrase>, n: nat)
    requires AllWithin(data, a) && AllWithin(data, b) && n < |a| && n < |b| && a[..n] == b[..n]
    requires (forall i | 0 <= i <= n :: Proper(data, a, i)) && (forall i | 0 <= i <= n :: Proper(data, b, i))
    ensures a[n] == b[n]
  {
    SameStart(a, b, n);
    StartIs(data, a, n);
    StartIs(data, b, n);
    NotShorter(data, a, b, n);
    NotShorter(data, b, a, n);
    SameKnown(data, a, b, n, WordOf(data, a[n]));
    hide Known;
    assert Proper(data, a, n) && Proper(data, b, n);
  }

  lemma SameStart(a: seq<Phrase>, b: seq<Phrase>, n: nat)
    requires n <= |a| && n <= |b| && a[..n] == b[..n]
    ensures StartAt(a, n) == StartAt(b, n)
  {
    assert n > 0 ==> a[n - 1] == a[..n][n - 1] == b[..n][n - 1] == b[n - 1];
  }

  lemma {:induction false} SamePrefix(data: seq<byte>, a: seq<Phrase>, f: nat, b: seq<Phrase>, g: nat, n: nat)
    requires Phrases(data, a, f) && Phrases(data, b, g) && n <= |a| && n <= |b|
    ensures a[..n] == b[..n]
  {
    hide Proper, Known;
    if n > 0 {
      SamePrefix(data, a, f, b, g, n - 1);
      SamePhrase(data, a, b, n - 1);
      assert a[..n] == a[..n - 1] + [a[n - 1]] && b[..n] == b[..n - 1] + [b[n - 1]];
    }
  }

  /** A cut with a known rest does not go on. */
  lemma NotLonger(data: seq<byte>, a: seq<Phrase>, f: nat, b: seq<Phrase>, g: nat)
    requires Phrases(data, a, f) && Phrases(data, b, g)
    ensures |b| <= |a|
  {
    hide Proper, Known;
    var n := |a|;
    if n < |b| {
      SamePrefix(data, a, f, b, g, n);
      SameStart(a, b, n);
      assert b[n].start == f by { StartIs(data, b, n); }
      assert data[f..|data|] == data[f..];
      NoneShorter(data, a, b, n, |data|);
      NoneBehindEnd(data, b, g, n);
    }
  }

  lemma StartIs(data: seq<byte>, ps: seq<Phrase>, n: nat)
    requires n < |ps| && AllWithin(data, ps) && Proper(data, ps, n)
    ensures ps[n].start == StartAt(ps, n)
  {
  }

  lemma NoneBehindEnd(data: seq<byte>, ps: seq<Phrase>, from: nat, n: nat)
    requires Phrases(data, ps, from) && n < |ps|
    ensures ps[n].added || ps[n].end < |data|
  {
    hide Known;
    if !ps[n].added && ps[n].end == |data| {
      if n + 1 < |ps| { StartIs(data, ps, n + 1); }
    }
  }

  /** The data tell the words: there is one way to cut them. */
  lemma OneCut(data: seq<byte>, a: seq<Phrase>, f: nat, b: seq<Phrase>, g: nat)
    requires Phrases(data, a, f) && Phrases(data, b, g)
    ensures a == b && f == g
  {
    hide Proper, Known;
    NotLonger(data, a, f, b, g);
    NotLonger(data, b, g, a, f);
    SamePrefix(data, a, f, b, g, |a|);
    assert a[..|a|] == a && b[..|b|] == b;
  }
}
