/** The LZW dictionary as a set of numbered words, and coding with it. */
module LzwWords {
  import opened Bytes

  const LZW_DICT_EOF := 256
  const LZW_DICT_SIZE := 0x1_0000
  const LZW_WORD_LEN := 16

  /** `index` numbers the words for encoding, `dec` lists them for decoding; `pending` is the word
    * that is being grown. */
  datatype Dict = Dict(index: map<seq<byte>, nat>, dec: seq<seq<byte>>, nextIdx: nat, pending: seq<byte>)

  function Singles(n: nat): (m: map<seq<byte>, nat>)
    requires n <= 256
    ensures forall w :: w in m <==> |w| == 1 && w[0] < n
    ensures forall w | w in m :: m[w] == w[0]
  {
    assert forall w: seq<byte> | |w| == 1 :: w == [w[0]];
    if n == 0 then map[] else Singles(n - 1)[[(n - 1) as byte] := n - 1]
  }

  /** Every single byte is a word from the start. */
  function Initial(): Dict {
    Dict(Singles(256), seq(LZW_DICT_SIZE, i requires 0 <= i < LZW_DICT_SIZE => if i < 256 then [i as byte] else []),
         LZW_DICT_EOF + 1, [])
  }

  /** A word that is too long is given up before the next byte. */
  function Trimmed(pending: seq<byte>): seq<byte> {
    if |pending| >= LZW_WORD_LEN then [] else pending
  }

  /** Grows the pending word; a word not seen before is numbered, and its last byte starts over. */
  function Learn(d: Dict, b: byte): Dict
    requires |d.dec| == LZW_DICT_SIZE
  {
    if d.nextIdx >= LZW_DICT_SIZE then d
    else
      var word := Trimmed(d.pending) + [b];
      if word in d.index then d.(pending := word)
      else Dict(d.index[word := d.nextIdx], d.dec[d.nextIdx := word], d.nextIdx + 1, [b])
  }

  function LearnAll(d: Dict, data: seq<byte>): (r: Dict)
    requires |d.dec| == LZW_DICT_SIZE
    ensures |r.dec| == LZW_DICT_SIZE
  {
    if data == [] then d else Learn(LearnAll(d, data[..|data| - 1]), data[|data| - 1])
  }

  lemma {:induction false} LearnConcat(d: Dict, a: seq<byte>, b: seq<byte>)
    requires |d.dec| == LZW_DICT_SIZE
    ensures LearnAll(d, a + b) == LearnAll(LearnAll(d, a), b)
  {
    if b == [] {
      assert a + b == a;
    } else {
      assert (a + b)[..|a + b| - 1] == a + b[..|b| - 1];
      LearnConcat(d, a, b[..|b| - 1]);
    }
  }

  // ---- what every dictionary that can be reached is like ----

  /** A prefix-closed set of words of at most 16 bytes, with different numbers below 65536 that
    * are never the end marker's, and the list that turns the numbers back. */
  ghost predicate Trie(d: Dict) {
    && |d.dec| == LZW_DICT_SIZE && LZW_DICT_EOF < d.nextIdx <= LZW_DICT_SIZE
    && (forall b: byte :: [b] in d.index && d.index[[b]] == b)
    && (forall w | w in d.index :: 0 < |w| <= LZW_WORD_LEN && (|w| > 1 ==> w[..|w| - 1] in d.index))
    && (forall w | w in d.index :: d.index[w] < d.nextIdx && d.index[w] != LZW_DICT_EOF && d.dec[d.index[w]] == w)
    && (forall i | 0 <= i < |d.dec| :: d.dec[i] != [] <==> i < d.nextIdx && i != LZW_DICT_EOF)
    && (forall i | 0 <= i < |d.dec| :: d.dec[i] != [] ==> d.dec[i] in d.index && d.index[d.dec[i]] == i)
    && (d.pending == [] || d.pending in d.index)
  }

  lemma InitialTrie()
    ensures Trie(Initial())
  {
    hide Singles;
    var d := Initial();
    assert forall w | w in d.index :: |w| == 1 && d.index[w] == w[0];
    assert forall w: seq<byte> | |w| == 1 :: w == [w[0]];
    forall w | w in d.index ensures d.dec[d.index[w]] == w {
      assert d.dec[w[0]] == [w[0]];
    }
    forall i | 0 <= i < |d.dec| && d.dec[i] != [] ensures d.dec[i] in d.index && d.index[d.dec[i]] == i {
      assert d.dec[i] == [i as byte];
    }
  }

  lemma LearnKeepsTrie(d: Dict, b: byte)
    requires Trie(d)
    ensures Trie(Learn(d, b))
  {
    var word := Trimmed(d.pending) + [b];
    if d.nextIdx < LZW_DICT_SIZE && word !in d.index {
      assert word[..|word| - 1] == Trimmed(d.pending);
      assert [b] in d.index;
      AddingKeepsTrie(d, word, b);
    }
  }

  lemma AddingKeepsTrie(d: Dict, word: seq<byte>, b: byte)
    requires Trie(d) && d.nextIdx < LZW_DICT_SIZE && word !in d.index && [b] in d.index
    requires 0 < |word| <= LZW_WORD_LEN && (|word| > 1 ==> word[..|word| - 1] in d.index)
    ensures Trie(Dict(d.index[word := d.nextIdx], d.dec[d.nextIdx := word], d.nextIdx + 1, [b]))
  {
    var r := Dict(d.index[word := d.nextIdx], d.dec[d.nextIdx := word], d.nextIdx + 1, [b]);
    forall i | 0 <= i < |r.dec|
      ensures r.dec[i] != [] <==> i < r.nextIdx && i != LZW_DICT_EOF
      ensures r.dec[i] != [] ==> r.dec[i] in r.index && r.index[r.dec[i]] == i
    {
      if i != d.nextIdx { assert r.dec[i] == d.dec[i]; }
    }
    forall w | w in r.index
      ensures r.index[w] < r.nextIdx && r.index[w] != LZW_DICT_EOF && r.dec[r.index[w]] == w
    {
      if w != word { assert r.index[w] == d.index[w] < d.nextIdx; }
    }
  }

  lemma {:induction false} LearnAllKeepsTrie(d: Dict, data: seq<byte>)
    requires Trie(d)
    ensures Trie(LearnAll(d, data))
  {
    hide Trie, Learn;
    if data != [] {
      LearnAllKeepsTrie(d, data[..|data| - 1]);
      TrieHasSize(d);
      LearnKeepsTrie(LearnAll(d, data[..|data| - 1]), data[|data| - 1]);
    } else {
      TrieHasSize(d);
    }
  }

  lemma TrieHasSize(d: Dict)
    requires Trie(d)
    ensures |d.dec| == LZW_DICT_SIZE
  {
  }

  /** Different words have different numbers. */
  lemma NumbersAreUnique(d: Dict, v: seq<byte>, w: seq<byte>)
    requires Trie(d) && v in d.index && w in d.index && d.index[v] == d.index[w]
    ensures v == w
  {
  }

  /** Every beginning of a word is a word. */
  lemma {:induction false} PrefixClosed(d: Dict, w: seq<byte>, n: nat)
    requires Trie(d) && w in d.index && 0 < n <= |w|
    ensures w[..n] in d.index
    decreases |w|
  {
    if n < |w| {
      PrefixClosed(d, w[..|w| - 1], n);
      assert w[..|w| - 1][..n] == w[..n];
    } else {
      assert w[..n] == w;
    }
  }

  // ---- encoding and decoding ----

  /** The numbers put out, and the word matched so far. */
  datatype Coded = Coded(codes: seq<nat>, current: seq<byte>)

  predicate Matched(d: Dict, current: seq<byte>) { current == [] || current in d.index }

  function EncodeByte(d: Dict, current: seq<byte>, b: byte): Coded
    requires Matched(d, current)
  {
    if current + [b] in d.index then Coded([], current + [b])
    else Coded(if current == [] then [] else [d.index[current]], [b])
  }

  function Encode(d: Dict, current: seq<byte>, data: seq<byte>): (r: Coded)
    requires Trie(d) && Matched(d, current)
    ensures Matched(d, r.current)
  {
    if data == [] then Coded([], current)
    else
      var r := Encode(d, current, data[..|data| - 1]);
      var s := EncodeByte(d, r.current, data[|data| - 1]);
      Coded(r.codes + s.codes, s.current)
  }

  function Flush(d: Dict, current: seq<byte>): seq<nat>
    requires Matched(d, current)
  {
    if current == [] then [] else [d.index[current]]
  }

  predicate ValidCodes(d: Dict, codes: seq<nat>) {
    forall i | 0 <= i < |codes| :: codes[i] < |d.dec|
  }

  function Decode(d: Dict, codes: seq<nat>): seq<byte>
    requires ValidCodes(d, codes)
  {
    if codes == [] then [] else Decode(d, codes[..|codes| - 1]) + d.dec[codes[|codes| - 1]]
  }

  lemma {:induction false} DecodeConcat(d: Dict, a: seq<nat>, b: seq<nat>)
    requires ValidCodes(d, a) && ValidCodes(d, b)
    ensures ValidCodes(d, a + b) && Decode(d, a + b) == Decode(d, a) + Decode(d, b)
  {
    if b == [] {
      assert a + b == a;
    } else {
      assert (a + b)[..|a + b| - 1] == a + b[..|b| - 1];
      DecodeConcat(d, a, b[..|b| - 1]);
    }
  }

  lemma DecodeOne(d: Dict, w: seq<byte>)
    requires Trie(d) && w in d.index
    ensures ValidCodes(d, [d.index[w]]) && Decode(d, [d.index[w]]) == w
  {
    var one := [d.index[w]];
    assert one[..0] == [];
  }

  /** What was put out, decoded, and the word matched so far make up what went in. */
  lemma {:induction false} EncodeDecodes(d: Dict, current: seq<byte>, data: seq<byte>)
    requires Trie(d) && Matched(d, current)
    ensures var r := Encode(d, current, data);
      ValidCodes(d, r.codes) && Decode(d, r.codes) + r.current == current + data && |r.codes| <= |data|
  {
    hide Trie;
    if data == [] {
      assert current + data == current;
    } else {
      var init, b := data[..|data| - 1], data[|data| - 1];
      EncodeDecodes(d, current, init);
      assert data == init + [b];
      assert current + data == current + init + [b];
      OneByteMore(d, Encode(d, current, init), b);
    }
  }

  lemma OneByteMore(d: Dict, r: Coded, b: byte)
    requires Trie(d) && ValidCodes(d, r.codes) && Matched(d, r.current)
    ensures var s := EncodeByte(d, r.current, b);
      ValidCodes(d, r.codes + s.codes) && Decode(d, r.codes + s.codes) + s.current == Decode(d, r.codes) + r.current + [b]
  {
    hide Trie, Decode;
    var s := EncodeByte(d, r.current, b);
    if s.codes == [] {
      assert r.codes + s.codes == r.codes;
      assert s.current == r.current + [b] by { if r.current == [] { assert [] + [b] == [b]; } }
      assert Decode(d, r.codes) + (r.current + [b]) == Decode(d, r.codes) + r.current + [b];
    } else {
      DecodeOne(d, r.current);
      DecodeConcat(d, r.codes, s.codes);
    }
  }

  /** Encoding in two parts is encoding at once. */
  lemma {:induction false} EncodeConcat(d: Dict, current: seq<byte>, a: seq<byte>, b: seq<byte>)
    requires Trie(d) && Matched(d, current)
    ensures var r := Encode(d, current, a); var s := Encode(d, r.current, b);
      Encode(d, current, a + b) == Coded(r.codes + s.codes, s.current)
  {
    hide Trie, EncodeByte;
    var r := Encode(d, current, a);
    if b == [] {
      assert a + b == a && r.codes + [] == r.codes;
    } else {
      assert (a + b)[..|a + b| - 1] == a + b[..|b| - 1];
      EncodeConcat(d, current, a, b[..|b| - 1]);
      var s := Encode(d, r.current, b[..|b| - 1]);
      var u := EncodeByte(d, s.current, b[|b| - 1]);
      assert r.codes + (s.codes + u.codes) == r.codes + s.codes + u.codes;
    }
  }

  /** Encoding any data, flushing and decoding returns the data. */
  lemma {:induction false} RoundTrip(d: Dict, data: seq<byte>)
    requires Trie(d)
    ensures var r := Encode(d, [], data);
      ValidCodes(d, r.codes + Flush(d, r.current)) && Decode(d, r.codes + Flush(d, r.current)) == data
  {
    var r := Encode(d, [], data);
    EncodeDecodes(d, [], data);
    assert [] + data == data;
    if r.current == [] {
      assert r.codes + [] == r.codes && Decode(d, r.codes) + [] == Decode(d, r.codes);
    } else {
      DecodeOne(d, r.current);
      DecodeConcat(d, r.codes, Flush(d, r.current));
    }
  }

  // ---- how many numbers there are ----

  /** A byte and the one before it; `x` comes before the first. */
  function Pair(x: byte, data: seq<byte>, i: nat): seq<byte>
    requires i < |data|
  {
    [if i == 0 then x else data[i - 1], data[i]]
  }

  /** No two neighbours, from `x` on, are a word. */
  predicate Strange(d: Dict, x: byte, data: seq<byte>) {
    forall i | 0 <= i < |data| :: Pair(x, data, i) !in d.index
  }

  /** Every byte puts out a number exactly if no two neighbours are a word. */
  lemma {:induction false} EveryByteIsACode(d: Dict, x: byte, data: seq<byte>)
    requires Trie(d)
    ensures Matched(d, [x])
    ensures |Encode(d, [x], data).codes| <= |data|
    ensures |Encode(d, [x], data).codes| == |data| <==> Strange(d, x, data)
    ensures Strange(d, x, data) ==> Encode(d, [x], data).current == [if data == [] then x else data[|data| - 1]]
  {
    hide Trie;
    SinglesAreWords(d, x);
    if data != [] {
      var init, b := data[..|data| - 1], data[|data| - 1];
      EveryByteIsACode(d, x, init);
      StrangeOneMore(d, x, init, b);
      assert data == init + [b];
      hide Strange;
      var last := if init == [] then x else init[|init| - 1];
      assert [last] + [b] == [last, b];
    }
  }

  lemma SinglesAreWords(d: Dict, x: byte)
    requires Trie(d)
    ensures [x] in d.index
  {
  }

  lemma StrangeOneMore(d: Dict, x: byte, init: seq<byte>, b: byte)
    ensures Strange(d, x, init + [b])
      <==> Strange(d, x, init) && [if init == [] then x else init[|init| - 1], b] !in d.index
  {
    var data := init + [b];
    assert Pair(x, data, |init|) == [if init == [] then x else init[|init| - 1], b];
    assert forall i | 0 <= i < |init| :: Pair(x, data, i) == Pair(x, init, i);
  }

  /** A stream that was asked for `size` bytes has room for a quarter as many numbers. For data of
    * which no two neighbours are a word that is enough exactly if four bytes were asked for each
    * byte of it; with the initial dictionary that is any data. */
  lemma RoomExactly(d: Dict, size: nat, x: byte, data: seq<byte>)
    requires Trie(d) && Strange(d, x, data)
    ensures Matched(d, [x]) && (|Encode(d, [x], data).codes| <= size / 4 <==> 4 * |data| <= size)
  {
    EveryByteIsACode(d, x, data);
  }

  lemma InitialIsStrange(x: byte, data: seq<byte>)
    ensures Trie(Initial()) && Strange(Initial(), x, data)
  {
    InitialTrie();
    hide Trie;
    OnlySingles();
  }

  lemma OnlySingles()
    ensures forall w | w in Initial().index :: |w| == 1
  {
  }

  lemma {:induction false} DecodedLength(d: Dict, codes: seq<nat>)
    requires Trie(d) && ValidCodes(d, codes)
    ensures |Decode(d, codes)| <= LZW_WORD_LEN * |codes|
  {
    if codes != [] {
      var n := |codes| - 1;
      DecodedLength(d, codes[..n]);
      WordsAreShort(d, codes[n]);
      hide Trie;
    }
  }

  lemma WordsAreShort(d: Dict, code: nat)
    requires Trie(d) && code < |d.dec|
    ensures |d.dec[code]| <= LZW_WORD_LEN
  {
    if d.dec[code] != [] { assert d.dec[code] in d.index; }
  }

  /** Whatever was learned, data puts out at most a number for every byte, and at least one for
    * every 16 but the last. */
  lemma NumbersNeeded(d: Dict, current: seq<byte>, data: seq<byte>)
    requires Trie(d) && Matched(d, current)
    ensures var r := Encode(d, current, data);
      |r.codes| <= |data| && |current| + |data| <= LZW_WORD_LEN * (|r.codes| + 1)
  {
    var r := Encode(d, current, data);
    EncodeDecodes(d, current, data);
    DecodedLength(d, r.codes);
    if r.current != [] { assert |r.current| <= LZW_WORD_LEN; }
  }

  /** Every dictionary that can be learned: its words are short, closed under prefixes, and
    * numbered one to one with numbers that turn back into them. */
  lemma EveryDictionary(data: seq<byte>)
    ensures var d := LearnAll(Initial(), data);
      && Trie(d)
      && (forall v, w | v in d.index && w in d.index && d.index[v] == d.index[w] :: v == w)
      && (forall w | w in d.index :: d.index[w] < |d.dec| && d.dec[d.index[w]] == w)
      && (forall w, n | w in d.index && 0 < n <= |w| :: w[..n] in d.index)
  {
    InitialTrie();
    LearnAllKeepsTrie(Initial(), data);
    var d := LearnAll(Initial(), data);
    hide LearnAll;
    forall v, w | v in d.index && w in d.index && d.index[v] == d.index[w] ensures v == w {
      NumbersAreUnique(d, v, w);
    }
    forall w, n | w in d.index && 0 < n <= |w| ensures w[..n] in d.index {
      PrefixClosed(d, w, n);
    }
  }
}
