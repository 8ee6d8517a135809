/** qlz_compress: looks each position up by its hash, and emits a literal or a match. What it has
  * emitted always describes the data so far. */
module QuickLzCompress {
  import opened Bytes
  import opened QuickLzFormat
  import opened QuickLzGreedy

  // ---- the hash table ----

  function Word(data: seq<byte>, p: nat): seq<byte>
    requires p + 4 <= |data|
  {
    data[p..p + 4]
  }

  ghost predicate IsTable(offset: array<int>, cache: array<seq<byte>>)
    reads cache
  {
    offset.Length == cache.Length == HASH_VALUES && forall h | 0 <= h < HASH_VALUES :: |cache[h]| == 4
  }

  /** Every entry is the last position hashed up to `bound` with that hash, together with the
    * four bytes that stand there. */
  ghost predicate Finds(offset: array<int>, cache: array<seq<byte>>, data: seq<byte>, hashed: set<nat>, bound: int)
    reads offset, cache
  {
    && IsTable(offset, cache)
    && (forall q | q in hashed :: q + 4 <= |data|)
    && (forall h | 0 <= h < HASH_VALUES :: offset[h] == Latest(hashed, data, h, bound))
    && (forall h | 0 <= h < HASH_VALUES && offset[h] != NONE :: cache[h] == Word(data, offset[h]))
  }

  /** Enters `src` in the table and returns the entry it replaces. */
  method Lookup(buf: seq<byte>, src: nat, offset: array<int>, cache: array<seq<byte>>, ghost hashed: set<nat>)
    returns (hash: nat, o: int, same3: bool, same4: bool)
    requires src + 4 <= |buf| && Finds(offset, cache, buf, hashed, src - 1)
    modifies offset, cache
    ensures hash == HashAt(buf, src) < HASH_VALUES && o == Latest(hashed, buf, hash, src - 1)
    ensures o != NONE ==> o < src && (same3 <==> SameBytes(buf, o, src, 3)) && (same4 <==> SameBytes(buf, o, src, 4))
    ensures Finds(offset, cache, buf, hashed + {src}, src)
  {
    hide Latest, HashBytes, Word, SameBytes;
    hash := HashAt(buf, src);
    var fetch := Word(buf, src);
    o := offset[hash];
    same3, same4 := Compare(fetch, cache[hash], buf, o, src);
    Replace(buf, src, hash, fetch, offset, cache, hashed);
  }

  /** Equal bytes of the words at two positions are equal bytes there. */
  method Compare(fetch: seq<byte>, cached: seq<byte>, ghost buf: seq<byte>, ghost o: int, ghost src: nat)
    returns (same3: bool, same4: bool)
    requires src + 4 <= |buf| && fetch == Word(buf, src) && |cached| == 4
    requires o != NONE ==> 0 <= o < src && cached == Word(buf, o)
    ensures o != NONE ==> (same3 <==> SameBytes(buf, o, src, 3)) && (same4 <==> SameBytes(buf, o, src, 4))
  {
    same3, same4 := fetch[..3] == cached[..3], fetch == cached;
    if o != NONE {
      WordsAgree(buf, o, src, 3);
      WordsAgree(buf, o, src, 4);
      assert fetch[..4] == fetch && cached[..4] == cached;
    }
  }

  lemma WordsAgree(buf: seq<byte>, o: nat, src: nat, n: nat)
    requires o < src && src + 4 <= |buf| && n <= 4
    ensures Word(buf, src)[..n] == Word(buf, o)[..n] <==> SameBytes(buf, o, src, n)
  {
    var a, b := Word(buf, src)[..n], Word(buf, o)[..n];
    assert forall i | 0 <= i < n :: a[i] == buf[src + i] && b[i] == buf[o + i];
    if a == b {
      forall x | src <= x < src + n ensures buf[x] == buf[x - (src - o)] {
        assert a[x - src] == b[x - src];
      }
    }
  }

  method Replace(ghost buf: seq<byte>, src: nat, hash: nat, fetch: seq<byte>, offset: array<int>, cache: array<seq<byte>>,
      ghost hashed: set<nat>)
    requires src + 4 <= |buf| && Finds(offset, cache, buf, hashed, src - 1)
    requires hash == HashAt(buf, src) && fetch == Word(buf, src)
    modifies offset, cache
    ensures Finds(offset, cache, buf, hashed + {src}, src)
  {
    hide Latest, HashBytes;
    cache[hash] := fetch;
    offset[hash] := src;
    forall h | 0 <= h < HASH_VALUES ensures offset[h] == Latest(hashed + {src}, buf, h, src) {
      LatestAfter(hashed, buf, h, src);
    }
    hide HashAt, Word;
    assert forall h | 0 <= h < HASH_VALUES && h != hash :: cache[h] == old(cache[h]) && offset[h] == old(offset[h]);
  }

  lemma LatestAfter(hashed: set<nat>, data: seq<byte>, h: nat, src: nat)
    requires forall q | q in hashed :: q + 3 <= |data|
    ensures Latest(hashed + {src}, data, h, src) == if HashAt(data, src) == h then src else Latest(hashed, data, h, src - 1)
  {
    LatestAgrees(hashed, hashed + {src}, data, data, h, src - 1);
  }

  lemma FindsSkips(offset: array<int>, cache: array<seq<byte>>, data: seq<byte>, hashed: set<nat>, low: int, high: int)
    requires Finds(offset, cache, data, hashed, low) && low <= high && forall q: nat | low < q <= high :: q !in hashed
    ensures Finds(offset, cache, data, hashed, high)
  {
    forall h | 0 <= h < HASH_VALUES
      ensures Latest(hashed, data, h, high) == Latest(hashed, data, h, low)
    {
      LatestSkips(hashed, data, h, low, high);
    }
  }

  // ---- matches ----

  /** `same`: the n + 1 bytes from `src` on are equal. */
  method Same(buf: seq<byte>, src: nat, n0: nat) returns (b: bool)
    requires src + n0 < |buf|
    ensures b <==> forall x | src <= x <= src + n0 :: buf[x] == buf[src]
  {
    var n := n0;
    while n > 0 && buf[src + n] == buf[src]
      invariant 0 <= n <= n0 && forall x | src + n < x <= src + n0 :: buf[x] == buf[src]
    {
      n := n - 1;
    }
    b := n == 0;
    if n > 0 { assert buf[src + n] != buf[src]; }
  }

  /** How far a match of at least three bytes goes; four bytes at the end stay literals. */
  method MatchLength(buf: seq<byte>, o: nat, src: nat, same4: bool) returns (length: nat)
    requires o < src && src + UNCONDITIONAL_MATCHLEN + UNCOMPRESSED_END < |buf|
    requires SameBytes(buf, o, src, 3)
    requires same4 <==> SameBytes(buf, o, src, 4)
    ensures 3 <= length <= 255 && src + length + UNCOMPRESSED_END <= |buf| && Longest(buf, o, src, length)
  {
    if !same4 {
      OneMoreSame(buf, o, src, 3);
      return 3;
    }
    length := 4;
    OneMoreSame(buf, o, src, length);
    if buf[o + length] == buf[src + length] {
      length := length + 1;
      OneMoreSame(buf, o, src, length);
      if buf[o + length] == buf[src + length] {
        var q := |buf| - UNCOMPRESSED_END - src;
        var remaining := if q > 255 then 255 else q;
        length := length + 1;
        hide SameBytes;
        while buf[o + length] == buf[src + length] && length < remaining
          invariant 6 <= length <= remaining && SameBytes(buf, o, src, length)
        {
          OneMoreSame(buf, o, src, length);
          length := length + 1;
        }
      }
    }
  }

  lemma OneMoreSame(buf: seq<byte>, o: nat, src: nat, length: nat)
    requires SameBytes(buf, o, src, length) && src + length < |buf|
    ensures buf[o + length] == buf[src + length] ==> SameBytes(buf, o, src, length + 1)
  {
  }

  // ---- control words under construction ----

  /** The control word while the items of its group are shifted in from the top. */
  function Filling(group: seq<Item>): nat {
    if group == [] then TOP_BIT
    else Filling(group[..|group| - 1]) / 2 + if group[|group| - 1].Match? then TOP_BIT else 0
  }

  function Bits(group: seq<Item>): nat {
    if group == [] then 0
    else Bits(group[..|group| - 1]) + if group[|group| - 1].Match? then Pow2(|group| - 1) else 0
  }

  /** `v` shifted left by `n`. */
  function Scale(n: nat, v: nat): nat {
    if n == 0 then v else Scale(n - 1, 2 * v)
  }

  lemma {:induction false} ScaleSum(n: nat, v: nat, w: nat)
    ensures Scale(n, v + w) == Scale(n, v) + Scale(n, w)
  {
    if n > 0 { ScaleSum(n - 1, 2 * v, 2 * w); }
  }

  lemma {:induction false} ScalePow2(n: nat, k: nat)
    ensures Scale(n, Pow2(k)) == Pow2(n + k)
  {
    if n > 0 { ScalePow2(n - 1, k + 1); }
  }

  lemma {:induction false} FillingIs(group: seq<Item>)
    requires |group| <= GROUP
    ensures Filling(group) == Scale(GROUP - |group|, 2 * Bits(group) + 1)
  {
    var n := |group|;
    if n == 0 {
      ScalePow2(GROUP, 0);
      Pow2Of31();
    } else {
      var init, m := group[..n - 1], GROUP - n;
      var v := 2 * Bits(init) + 1;
      FillingIs(init);
      ScaleSum(m, v, v);
      assert Filling(init) == 2 * Scale(m, v);
      if group[n - 1].Match? {
        ScaleSum(m, v, Pow2(n));
        ScalePow2(m, n);
        Pow2Of31();
      }
    }
  }

  /** The low bit shows when a control word is full. */
  lemma FullIsOdd(group: seq<Item>)
    requires |group| <= GROUP
    ensures Filling(group) % 2 == 1 <==> |group| == GROUP
    ensures |group| == GROUP ==> Filling(group) == 2 * Bits(group) + 1
  {
    FillingIs(group);
    if |group| < GROUP {
      var v := 2 * Bits(group) + 1;
      ScaleSum(GROUP - |group| - 1, v, v);
    }
  }

  lemma {:induction false} ControlSnoc(group: seq<Item>, x: Item)
    ensures Control(group + [x], |group| + 1) == Control(group, |group|) + Pow2(|group|) + if x.Match? then Pow2(|group|) else 0
  {
    if group != [] {
      ControlSnoc(group[1..], x);
      assert (group + [x])[1..] == group[1..] + [x];
      var p := Pow2(|group| - 1);
      assert Pow2(|group|) == 2 * p;
    } else {
      assert (group + [x])[1..] == [];
    }
  }

  lemma {:induction false} ControlIs(group: seq<Item>)
    ensures Control(group, |group|) == Bits(group) + Pow2(|group|)
  {
    if group != [] {
      var init, x := group[..|group| - 1], group[|group| - 1];
      ControlIs(init);
      ControlSnoc(init, x);
      assert init + [x] == group;
    }
  }

  /** A full group, shifted once more, is the control word of its items. */
  lemma FullControl(group: seq<Item>)
    requires |group| == GROUP
    ensures Filling(group) / 2 + TOP_BIT == Control(group, GROUP) < 0x1_0000_0000
  {
    FullIsOdd(group);
    ControlIs(group);
    Pow2Of31();
    ControlBound(group, GROUP);
  }

  /** Padding a group with zero bits does not change its control word. */
  lemma {:induction false} PadControl(group: seq<Item>, n: nat)
    ensures Control(group + [Literal(0)], n) == Control(group, n)
  {
    if n > 0 {
      if group == [] {
        assert (group + [Literal(0)])[1..] == [];
      } else {
        assert (group + [Literal(0)])[1..] == group[1..] + [Literal(0)];
        PadControl(group[1..], n - 1);
      }
    }
  }

  // ---- output ----

  lemma {:induction false} StreamWithin(items: seq<Item>, left: nat)
    requires AllEncodable(items) && |items| <= left
    ensures Stream(items, left) == Payload(items)
  {
    if items != [] { StreamWithin(items[1..], left - 1); }
  }

  lemma StreamOfGroup(group: seq<Item>)
    requires AllEncodable(group) && 0 < |group| <= GROUP
    ensures Stream(group, 0) == LittleEndian(Control(group, GROUP)) + Payload(group)
  {
    StreamWithin(group, GROUP);
  }

  lemma {:induction false} ControlPrefix(items: seq<Item>, more: seq<Item>, n: nat)
    requires n <= |items|
    ensures Control(items + more, n) == Control(items, n)
  {
    if n > 0 {
      assert (items + more)[1..] == items[1..] + more;
      ControlPrefix(items[1..], more, n - 1);
    }
  }

  /** Full groups can be put in front of any other items. */
  lemma {:induction false} StreamAppend(items: seq<Item>, left: nat, more: seq<Item>)
    requires AllEncodable(items) && AllEncodable(more) && left <= |items| && (|items| - left) % GROUP == 0
    ensures AllEncodable(items + more) && Stream(items + more, left) == Stream(items, left) + Stream(more, 0)
    decreases |items|, left == 0
  {
    if items == [] {
      assert items + more == more;
    } else if left == 0 {
      StreamAppend(items, GROUP, more);
      ControlPrefix(items, more, GROUP);
    } else {
      assert (items + more)[1..] == items[1..] + more;
      StreamAppend(items[1..], left - 1, more);
    }
  }

  lemma {:induction false} PayloadSnoc(items: seq<Item>, x: Item)
    requires AllEncodable(items) && x.Encodable()
    ensures AllEncodable(items + [x]) && Payload(items + [x]) == Payload(items) + ItemBytes(x)
  {
    if items == [] {
      assert (items + [x])[1..] == [];
    } else {
      assert (items + [x])[1..] == items[1..] + [x];
      PayloadSnoc(items[1..], x);
    }
  }

  /** Where the compressor writes: finished groups up to `cwordPtr`, room for their next
    * control word, and the bytes of the group under construction up to `dst`. */
  datatype Cursor = Cursor(cwordPtr: nat, dst: nat, w: nat)

  ghost predicate Emitting(dest: array<byte>, base: nat, c: Cursor, full: seq<Item>, group: seq<Item>)
    reads dest
  {
    && AllEncodable(full) && AllEncodable(group) && |full| % GROUP == 0 && |group| <= GROUP
    && base <= c.cwordPtr && c.cwordPtr + CWORD_LEN <= c.dst <= dest.Length
    && dest[base..c.cwordPtr] == Stream(full, 0) && dest[c.cwordPtr + CWORD_LEN..c.dst] == Payload(group)
    && c.w == Filling(group)
  }

  /** Writes one item; a token with a length byte is stored as a whole 32-bit word. */
  method Put(dest: array<byte>, dst0: nat, x: Item) returns (dst: nat)
    requires x.Encodable() && dst0 + 4 <= dest.Length
    modifies dest
    ensures dst == dst0 + |ItemBytes(x)| && dest[..dst] == old(dest[..dst0]) + ItemBytes(x)
  {
    match x {
      case Literal(b) =>
        dest[dst0] := b;
        dst := dst0 + 1;
      case Match(hash, length) =>
        if length < 18 {
          var token := length - 2 + 16 * hash;
          dest[dst0], dest[dst0 + 1] := token % 256, token / 256;
          dst := dst0 + 2;
        } else {
          var token := 16 * hash;
          dest[dst0], dest[dst0 + 1], dest[dst0 + 2], dest[dst0 + 3] := token % 256, token / 256, length, 0;
          dst := dst0 + 3;
        }
    }
  }

  /** Appends one item and shifts its bit into the control word. */
  method Emit(dest: array<byte>, base: nat, c: Cursor, x: Item, ghost full: seq<Item>, ghost group: seq<Item>) returns (c': Cursor)
    requires Emitting(dest, base, c, full, group) && |group| < GROUP && x.Encodable() && c.dst + 4 <= dest.Length
    modifies dest
    ensures Emitting(dest, base, c', full, group + [x])
    ensures c' == Cursor(c.cwordPtr, c.dst + |ItemBytes(x)|, c'.w)
    ensures dest[..base] == old(dest[..base])
  {
    hide Stream, Payload, ItemBytes;
    PayloadSnoc(group, x);
    assert (group + [x])[..|group|] == group;
    ghost var was := dest[..c.dst];
    PartOf(dest, base, c.cwordPtr, c.dst);
    PartOf(dest, c.cwordPtr + CWORD_LEN, c.dst, c.dst);
    var dst := Put(dest, c.dst, x);
    c' := Cursor(c.cwordPtr, dst, if x.Match? then c.w / 2 + TOP_BIT else c.w / 2);
    PartOf(dest, base, c.cwordPtr, dst);
    PartOf(dest, c.cwordPtr + CWORD_LEN, dst, dst);
    PartsOfBoth(was, ItemBytes(x), base, c.cwordPtr, c.cwordPtr + CWORD_LEN);
    PartOf(dest, 0, base, dst);
    assert (was + ItemBytes(x))[0..base] == was[..base];
  }

  lemma PartOf(a: array<byte>, i: nat, j: nat, n: nat)
    requires i <= j <= n <= a.Length
    ensures a[i..j] == a[..n][i..j]
  {
  }

  lemma PartsOfBoth(a: seq<byte>, b: seq<byte>, i: nat, j: nat, k: nat)
    requires i <= j <= k <= |a|
    ensures (a + b)[i..j] == a[i..j] && (a + b)[k..|a + b|] == a[k..|a|] + b
  {
  }

  /** Stores the control word of the group under construction in the room left for it. */
  method StoreControl(dest: array<byte>, base: nat, c: Cursor, w: nat, ghost full: seq<Item>, ghost group: seq<Item>)
    requires Emitting(dest, base, c, full, group) && group != []
    requires w / 2 + TOP_BIT == Control(group, GROUP) < 0x1_0000_0000
    modifies dest
    ensures AllEncodable(full + group) && dest[base..c.dst] == Stream(full + group, 0)
    ensures dest[..base] == old(dest[..base])
  {
    hide Stream, Payload, Control, Filling;
    ghost var head, tail := dest[base..c.cwordPtr], dest[c.cwordPtr + CWORD_LEN..c.dst];
    var bytes := LittleEndian(w / 2 + TOP_BIT);
    forall k | 0 <= k < CWORD_LEN {
      dest[c.cwordPtr + k] := bytes[k];
    }
    StreamAppend(full, 0, group);
    StreamOfGroup(group);
    assert dest[base..c.cwordPtr] == head && dest[c.cwordPtr + CWORD_LEN..c.dst] == tail;
    assert dest[c.cwordPtr..c.cwordPtr + CWORD_LEN] == bytes;
    ThreeParts(dest, base, c.cwordPtr, c.cwordPtr + CWORD_LEN, c.dst);
  }

  lemma ThreeParts(a: array<byte>, i: nat, j: nat, k: nat, n: nat)
    requires i <= j <= k <= n <= a.Length
    ensures a[i..n] == a[i..j] + (a[j..k] + a[k..n])
  {
    assert a[j..n] == a[j..k] + a[k..n];
  }

  // ---- bounds ----

  /** How much has been written when `src - start` bytes are encoded; the current group has
    * `count` items and starts at `groupStart`. */
  ghost predicate Budget(base: nat, c: Cursor, start: nat, src: nat, groupStart: nat, count: nat) {
    && start <= groupStart && groupStart + count <= src && base <= c.cwordPtr && c.cwordPtr + CWORD_LEN <= c.dst
    && 31 * (c.cwordPtr - base) <= 35 * (groupStart - start)
    && c.dst - (c.cwordPtr + CWORD_LEN) <= src - groupStart
    && c.dst - (c.cwordPtr + CWORD_LEN) <= 3 * count
  }

  // ---- one item ----

  /** What the main loop of the compressor keeps. */
  ghost predicate Compressing(buf: seq<byte>, start: nat, src: nat, lits: nat, offset: array<int>, cache: array<seq<byte>>, plan: Plan)
    reads offset, cache
  {
    && plan.data == buf && Reaches(plan, src) && Finds(offset, cache, buf, plan.hashed, src - 1)
    && start + lits <= src && forall q: nat | src - lits <= q < src :: q in plan.hashed
  }

  /** Whether the entry found can be used. */
  method Usable(buf: seq<byte>, start: nat, src: nat, lits: nat, o: int, same3: bool) returns (b: bool)
    requires start + lits <= src && src + UNCONDITIONAL_MATCHLEN < |buf|
    ensures b <==> same3 && o != NONE && FarOrRun(buf, start, src, lits >= 3, o)
  {
    b := same3 && o != NONE;
    if b {
      b := src - o > MINOFFSET;
      if !b && src == o + 1 && lits >= 3 && src > start + 3 {
        b := Same(buf, src - 3, 6);
        RunOfSeven(buf, src);
      }
    }
  }

  lemma RunOfSeven(buf: seq<byte>, src: nat)
    requires 3 <= src && src + 3 < |buf|
    ensures (forall x | src - 3 <= x <= src + 3 :: buf[x] == buf[src - 3]) <==> InRun(buf, src)
  {
    if forall x | src - 3 <= x <= src + 3 :: buf[x] == buf[src - 3] { assert buf[src] == buf[src - 3]; }
    if InRun(buf, src) { assert buf[src - 3] == buf[src]; }
  }

  /** A usable entry is a match in the sense of the decoder, which knows only the positions
    * at least three bytes back: inside a run it finds the one exactly three bytes back. */
  lemma UsableStands(plan: Plan, start: nat, src: nat, lits: nat, o: int, length: nat)
    requires Reaches(plan, src) && src + UNCONDITIONAL_MATCHLEN + UNCOMPRESSED_END < |plan.data|
    requires 3 <= length <= 255 && src + length + UNCOMPRESSED_END <= |plan.data|
    requires lits <= src && forall q: nat | src - lits <= q < src :: q in plan.hashed
    requires o != NONE && o == Latest(plan.hashed, plan.data, HashAt(plan.data, src), src - 1)
    requires SameBytes(plan.data, o, src, length)
    requires FarOrRun(plan.data, start, src, lits >= 3, o)
    ensures Stands(Match(HashAt(plan.data, src), length), plan.data, src, plan.hashed + {src})
  {
    hide Latest, HashAt, SameBytes, Stands;
    if src - o > MINOFFSET {
      FarStands(plan.data, plan.hashed, src, o, length);
    } else {
      RunStands(plan.data, plan.hashed, src, length);
    }
  }

  lemma FarStands(data: seq<byte>, hashed: set<nat>, src: nat, o: int, length: nat)
    requires (forall q | q in hashed :: q < src) && src + UNCONDITIONAL_MATCHLEN + UNCOMPRESSED_END < |data|
    requires 3 <= length <= 255 && src + length + UNCOMPRESSED_END <= |data|
    requires o != NONE && o + MINOFFSET < src && o == Latest(hashed, data, HashAt(data, src), src - 1)
    requires SameBytes(data, o, src, length)
    ensures Stands(Match(HashAt(data, src), length), data, src, hashed + {src})
  {
    hide HashAt, Latest, SameBytes;
    var h := HashAt(data, src);
    LatestAgrees(hashed, hashed + {src}, data, data, h, src - 3);
    LatestBelow(hashed, data, h, src, o);
  }

  lemma RunStands(data: seq<byte>, hashed: set<nat>, src: nat, length: nat)
    requires (forall q | q in hashed :: q < src) && src + UNCONDITIONAL_MATCHLEN + UNCOMPRESSED_END < |data|
    requires 3 <= length <= 255 && src + length + UNCOMPRESSED_END <= |data|
    requires 3 <= src && src - 3 in hashed && forall x | src - 3 <= x <= src + 3 :: data[x] == data[src]
    requires SameBytes(data, src - 1, src, length)
    ensures Stands(Match(HashAt(data, src), length), data, src, hashed + {src})
  {
    hide HashAt, Latest, SameBytes;
    LatestAgrees(hashed, hashed + {src}, data, data, HashAt(data, src), src - 3);
    LatestInRun(hashed, data, src);
    RunIsSame(data, src, length);
  }

  /** A position found with a larger bound is found with any bound that it does not exceed. */
  lemma LatestBelow(hashed: set<nat>, data: seq<byte>, h: nat, src: nat, o: nat)
    requires o + MINOFFSET < src && o == Latest(hashed, data, h, src - 1)
    ensures Latest(hashed, data, h, src - 3) == o
  {
    hide HashAt;
    assert Latest(hashed, data, h, src - 1) == Latest(hashed, data, h, src - 2);
  }

  /** Inside a run the position three bytes back has the same hash. */
  lemma LatestInRun(hashed: set<nat>, data: seq<byte>, src: nat)
    requires 3 <= src && src + 3 < |data| && src - 3 in hashed
    requires forall x | src - 3 <= x <= src + 3 :: data[x] == data[src]
    ensures Latest(hashed, data, HashAt(data, src), src - 3) == src - 3
  {
    hide HashBytes;
  }

  lemma {:induction false} RunIsSame(data: seq<byte>, src: nat, length: nat)
    requires 3 <= src && SameBytes(data, src - 1, src, length)
    requires src + 3 < |data| && forall x | src - 3 <= x <= src + 3 :: data[x] == data[src]
    ensures SameBytes(data, src - 3, src, length)
    ensures forall x | src - 3 <= x < src + length :: data[x] == data[src]
  {
    if length > 0 {
      RunIsSame(data, src, length - 1);
      var x := src + length - 1;
      assert data[x] == data[x - (src - (src - 1))] == data[x - 1];
    }
  }

  /** The next item of the main loop: a match if the table has a usable entry, else a literal. */
  method ChooseItem(buf: seq<byte>, start: nat, src0: nat, lits0: nat, offset: array<int>, cache: array<seq<byte>>, ghost plan0: Plan)
    returns (x: Item, src: nat, lits: nat, ghost plan: Plan)
    requires Compressing(buf, start, src0, lits0, offset, cache, plan0)
    requires src0 + UNCONDITIONAL_MATCHLEN + UNCOMPRESSED_END < |buf|
    requires Greedy(plan0) && LiteralsBehind(plan0, lits0) && plan0.ps[0] == start
    modifies offset, cache
    ensures x.Encodable() && src == src0 + x.Size() < |buf|
    ensures plan == Append(plan0, x, src, plan0.hashed + {src0}) && Compressing(buf, start, src, lits, offset, cache, plan)
    ensures Greedy(plan) && LiteralsBehind(plan, lits)
  {
    hide Latest, HashAt, SameBytes, Greedy, Longest, FarOrRun, LiteralsBehind, Reaches;
    ghost var hashed := plan0.hashed + {src0};
    var hash, o, same3, same4 := Lookup(buf, src0, offset, cache, plan0.hashed);
    var usable := Usable(buf, start, src0, lits0, o, same3);
    if usable {
      var length := MatchLength(buf, o, src0, same4);
      x, src, lits := Match(hash, length), src0 + length, 0;
    } else {
      x, src, lits := Literal(buf[src0]), src0 + 1, lits0 + 1;
    }
    ItemFollows(plan0, start, x, src0, lits0, o, usable);
    plan := Append(plan0, x, src, hashed);
    hide Finds;
    NothingBetween(plan0, src0, src);
    FindsSkips(offset, cache, buf, hashed, src0, src - 1);
  }

  lemma NothingBetween(plan: Plan, src: nat, next: nat)
    requires Reaches(plan, src) && src < next
    ensures forall q | src < q < next :: q !in plan.hashed + {src}
  {
  }

  /** The item chosen for the next position goes on with the plan. */
  lemma ItemFollows(plan: Plan, start: nat, x: Item, src: nat, lits: nat, o: int, usable: bool)
    requires Reaches(plan, src) && Greedy(plan) && LiteralsBehind(plan, lits) && plan.ps[0] == start && start + lits <= src
    requires forall q: nat | src - lits <= q < src :: q in plan.hashed
    requires src + UNCONDITIONAL_MATCHLEN + UNCOMPRESSED_END < |plan.data|
    requires o == Latest(plan.hashed, plan.data, HashAt(plan.data, src), src - 1)
    requires usable <==> o != NONE && SameBytes(plan.data, o, src, 3) && FarOrRun(plan.data, start, src, lits >= 3, o)
    requires x.Encodable() && src + x.Size() + UNCOMPRESSED_END <= |plan.data|
    requires if usable then x.Match? && x.hash == HashAt(plan.data, src) && Longest(plan.data, o, src, x.length)
      else x == Literal(plan.data[src])
    ensures var after, next := Append(plan, x, src + x.Size(), plan.hashed + {src}), src + x.Size();
      Reaches(after, next) && Greedy(after) && LiteralsBehind(after, if usable then 0 else lits + 1)
  {
    hide Latest, HashAt, SameBytes, Greedy, FarOrRun, LiteralsBehind;
    var hashed := plan.hashed + {src};
    if usable {
      UsableStands(plan, start, src, lits, o, x.length);
    } else {
      assert src !in plan.hashed;
    }
    hide Longest, Stands;
    AppendReaches(plan, x, src, hashed);
    ItemIsChosen(plan, x, src, hashed, lits, o, usable);
    LiteralsNext(plan, x, src + x.Size(), hashed, lits);
  }

  /** The choice made with the table is the one that the plan tells. */
  lemma ItemIsChosen(plan: Plan, x: Item, src: nat, hashed: set<nat>, lits: nat, o: int, usable: bool)
    requires Reaches(plan, src) && Greedy(plan) && LiteralsBehind(plan, lits) && hashed == plan.hashed + {src}
    requires src + UNCONDITIONAL_MATCHLEN + UNCOMPRESSED_END < |plan.data|
    requires o == Latest(plan.hashed, plan.data, HashAt(plan.data, src), src - 1)
    requires usable <==> o != NONE && SameBytes(plan.data, o, src, 3) && FarOrRun(plan.data, plan.ps[0], src, lits >= 3, o)
    requires if usable then x.Match? && Longest(plan.data, o, src, x.length) else x.Literal?
    ensures Greedy(Append(plan, x, src + x.Size(), hashed))
  {
    hide Latest, HashAt, SameBytes, FarOrRun, Longest, Greedy, LiteralsBehind, BehindLiterals;
    var after, n := Append(plan, x, src + x.Size(), hashed), |plan.items|;
    EntryStays(plan, x, src, hashed, n);
    LiteralsAreBehind(plan, lits);
    SameLiterals(plan.items, x);
    AppendGreedy(plan, x, src, hashed);
  }

  lemma SameLiterals(items: seq<Item>, x: Item)
    ensures BehindLiterals(items + [x], |items|) == BehindLiterals(items, |items|)
  {
  }

  lemma LiteralsNext(plan: Plan, x: Item, next: nat, hashed: set<nat>, lits: nat)
    requires LiteralsBehind(plan, lits)
    ensures LiteralsBehind(Append(plan, x, next, hashed), if x.Match? then 0 else lits + 1)
  {
  }

  /** The next item near the end: always a literal, hashed if four bytes are left. */
  method TailItem(buf: seq<byte>, start: nat, src0: nat, offset: array<int>, cache: array<seq<byte>>, ghost plan0: Plan)
    returns (x: Item, ghost plan: Plan)
    requires Compressing(buf, start, src0, 0, offset, cache, plan0) && Greedy(plan0)
    requires src0 < |buf| <= src0 + UNCONDITIONAL_MATCHLEN + UNCOMPRESSED_END
    modifies offset, cache
    ensures x.Literal? && plan == Append(plan0, x, src0 + 1, plan.hashed) && Greedy(plan)
    ensures Compressing(buf, start, src0 + 1, 0, offset, cache, plan)
    ensures forall q: nat | q < src0 :: q in plan.hashed <==> q in plan0.hashed
  {
    hide Latest, HashAt;
    x := Literal(buf[src0]);
    ghost var hashed := plan0.hashed;
    if src0 + 4 <= |buf| {
      var _, _, _, _ := Lookup(buf, src0, offset, cache, plan0.hashed);
      hashed := hashed + {src0};
    } else {
      FindsSkips(offset, cache, buf, hashed, src0 - 1, src0);
    }
    AppendReaches(plan0, x, src0, hashed);
    plan := Append(plan0, x, src0 + 1, hashed);
    hide Greedy;
    AppendGreedy(plan0, x, src0, hashed);
  }

  // ---- a whole packet ----

  /** Output and plan go together: `full` and `group` are the plan's items. */
  ghost predicate Writing(dest: array<byte>, base: nat, c: Cursor, full: seq<Item>, group: seq<Item>,
      plan: Plan, start: nat, src: nat, groupStart: nat)
    reads dest
  {
    plan.items == full + group && Emitting(dest, base, c, full, group) && Budget(base, c, start, src, groupStart, |group|)
  }

  lemma OneGroupMore(n: nat)
    requires n % GROUP == 0
    ensures (n + GROUP) % GROUP == 0
  {
  }

  /** Finishes a full group and leaves room for the next control word. */
  method NextGroup(dest: array<byte>, base: nat, c: Cursor, ghost full0: seq<Item>, ghost group0: seq<Item>,
      ghost plan: Plan, ghost start: nat, src: nat, ghost groupStart: nat)
    returns (c': Cursor, ghost full: seq<Item>)
    requires Writing(dest, base, c, full0, group0, plan, start, src, groupStart) && |group0| == GROUP
    requires c.dst + CWORD_LEN <= dest.Length
    modifies dest
    ensures c' == Cursor(c.dst, c.dst + CWORD_LEN, TOP_BIT)
    ensures Writing(dest, base, c', full, [], plan, start, src, src)
    ensures dest[..base] == old(dest[..base])
  {
    FullControl(group0);
    hide Stream, Control, AllEncodable;
    StoreControl(dest, base, c, c.w, full0, group0);
    OneGroupMore(|full0|);
    c' := Cursor(c.dst, c.dst + CWORD_LEN, TOP_BIT);
    full := full0 + group0;
  }

  /** Writes an item the plan has just been extended by. */
  method EmitNext(dest: array<byte>, base: nat, c: Cursor, x: Item, ghost full: seq<Item>, ghost group: seq<Item>,
      ghost plan0: Plan, ghost plan: Plan, ghost start: nat, ghost src0: nat, ghost groupStart: nat)
    returns (c': Cursor)
    requires Writing(dest, base, c, full, group, plan0, start, src0, groupStart) && |group| < GROUP
    requires x.Encodable() && c.dst + 4 <= dest.Length && plan.items == plan0.items + [x]
    modifies dest
    ensures Writing(dest, base, c', full, group + [x], plan, start, src0 + x.Size(), groupStart)
    ensures c'.cwordPtr == c.cwordPtr && c'.dst == c.dst + |ItemBytes(x)|
    ensures dest[..base] == old(dest[..base])
  {
    hide Emitting;
    c' := Emit(dest, base, c, x, full, group);
    assert plan.items == full + (group + [x]);
  }

  /** The last control word, whose unused bits are zero, and the minimal size of nine bytes. */
  method FinishGroup(dest: array<byte>, base: nat, c: Cursor, ghost full: seq<Item>, ghost group: seq<Item>)
    requires Emitting(dest, base, c, full, group) && group != []
    modifies dest
    ensures AllEncodable(full + group) && dest[base..c.dst] == Stream(full + group, 0)
    ensures dest[..base] == old(dest[..base])
  {
    var w := c.w;
    ghost var padded := group;
    FullIsOdd(padded);
    while w % 2 != 1
      invariant |padded| <= GROUP && w == Filling(padded) && Control(padded, GROUP) == Control(group, GROUP)
      invariant w % 2 == 1 <==> |padded| == GROUP
      decreases GROUP - |padded|
      modifies {}
    {
      PadControl(padded, GROUP);
      assert (padded + [Literal(0)])[..|padded|] == padded;
      padded := padded + [Literal(0)];
      w := w / 2;
      FullIsOdd(padded);
    }
    FullControl(padded);
    StoreControl(dest, base, c, w, full, group);
  }

  /** The main loop could not save enough, or how far it came. */
  datatype Progress = Refused | Done(src: nat, c: Cursor)

  /** Matches and literals up to the last position where a match may start. Gives up when the
    * second half is reached and less than a 32nd has been saved. */
  method MainLoop(buf: seq<byte>, start: nat, dest: array<byte>, base: nat, offset: array<int>, cache: array<seq<byte>>,
      ghost hashed: set<nat>)
    returns (r: Progress, ghost plan: Plan, ghost full: seq<Item>, ghost group: seq<Item>, ghost groupStart: nat)
    requires start < |buf| && base + (|buf| - start) + 391 <= dest.Length
    requires Finds(offset, cache, buf, hashed, start - 1) && forall q | q in hashed :: q < start
    modifies dest, offset, cache
    ensures IsTable(offset, cache)
    ensures r.Done? ==> start <= r.src < |buf| <= r.src + UNCONDITIONAL_MATCHLEN + UNCOMPRESSED_END
    ensures r.Done? ==> r.c.dst <= base + (|buf| - start) + 97
    ensures r.Done? ==> Compressing(buf, start, r.src, 0, offset, cache, plan) && plan.ps[0] == start
    ensures r.Done? ==> forall q: nat | q < start :: q in plan.hashed <==> q in hashed
    ensures r.Done? ==> Writing(dest, base, r.c, full, group, plan, start, r.src, groupStart)
    ensures r.Done? ==> Greedy(plan) && NeverPoor(plan, |plan.items| + 1)
    ensures r.Refused? ==> GivesUp(Context(buf[..start], hashed), buf, plan)
    ensures dest[..base] == old(dest[..base])
  {
    hide Emitting, Writing, Stands, Finds, Latest, Greedy, NeverPoor, TooPoor, LiteralsBehind, Stream, GivesUp, ItemBytes;
    var src, lits, size := start, 0, |buf| - start;
    var c := Cursor(base, base + CWORD_LEN, TOP_BIT);
    plan, full, group, groupStart := Plan([], [start], buf, hashed), [], [], start;
    StartsWriting(dest, base, c, buf, start, offset, cache, hashed);
    while src + UNCONDITIONAL_MATCHLEN + UNCOMPRESSED_END < |buf|
      invariant start <= src < |buf| && Compressing(buf, start, src, lits, offset, cache, plan) && plan.ps[0] == start
      invariant forall q: nat | q < start :: q in plan.hashed <==> q in hashed
      invariant Writing(dest, base, c, full, group, plan, start, src, groupStart)
      invariant c.cwordPtr - base <= size && dest[..base] == old(dest[..base])
      invariant Greedy(plan) && LiteralsBehind(plan, lits) && NeverPoor(plan, |plan.items|) && (group == [] ==> full == [])
      decreases |buf| - src
    {
      var refused;
      refused, c, full, group, groupStart := NextControl(dest, base, c, size, full, group, plan, start, src, groupStart);
      if refused {
        FindsIsTable(offset, cache, buf, plan.hashed, src - 1);
        IsGivenUp(buf, start, hashed, plan, src);
        return Refused, plan, full, group, groupStart;
      }
      var x, next;
      ghost var after;
      x, next, lits, after := ChooseItem(buf, start, src, lits, offset, cache, plan);
      MoreItems(plan, x, src, next, after.hashed);
      c := EmitNext(dest, base, c, x, full, group, plan, after, start, src, groupStart);
      src, plan, group := next, after, group + [x];
    }
    MainBound(dest, base, c, full, group, plan, start, src, groupStart);
    FindsIsTable(offset, cache, buf, plan.hashed, src - 1);
    NotPoorAtEnd(plan, src);
    r := Done(src, c);
  }

  lemma MainBound(dest: array<byte>, base: nat, c: Cursor, full: seq<Item>, group: seq<Item>, plan: Plan,
      start: nat, src: nat, groupStart: nat)
    requires Writing(dest, base, c, full, group, plan, start, src, groupStart)
    ensures c.dst <= c.cwordPtr + CWORD_LEN + 3 * GROUP
  {
    FullMeansOdd(dest, base, c, full, group);
    hide Emitting;
  }

  lemma IsGivenUp(buf: seq<byte>, start: nat, hashed: set<nat>, plan: Plan, src: nat)
    requires start <= |buf| && plan.data == buf && Reaches(plan, src) && Greedy(plan) && plan.ps[0] == start
    requires TooPoor(plan, |plan.items|) && forall q: nat | q < start :: q in plan.hashed <==> q in hashed
    ensures GivesUp(Context(buf[..start], hashed), buf, plan)
  {
    hide Greedy, TooPoor;
  }

  lemma MoreItems(plan: Plan, x: Item, src: nat, next: nat, hashed: set<nat>)
    requires Reaches(plan, src) && x.Encodable() && NeverPoor(plan, |plan.items| + 1)
    ensures AllEncodable(plan.items + [x]) && NeverPoor(Append(plan, x, next, hashed), |plan.items| + 1)
    ensures Append(plan, x, next, hashed).ps[0] == plan.ps[0]
  {
    AppendNeverPoor(plan, x, next, hashed, |plan.items| + 1);
    hide NeverPoor;
  }

  /** Begins another control word where one is due, or gives up. */
  method NextControl(dest: array<byte>, base: nat, c0: Cursor, size: nat, ghost full0: seq<Item>, ghost group0: seq<Item>,
      ghost plan: Plan, start: nat, src: nat, ghost groupStart0: nat)
    returns (refused: bool, c: Cursor, ghost full: seq<Item>, ghost group: seq<Item>, ghost groupStart: nat)
    requires Writing(dest, base, c0, full0, group0, plan, start, src, groupStart0) && Reaches(plan, src)
    requires plan.ps[0] == start <= src && size == |plan.data| - start && (group0 == [] ==> full0 == [])
    requires src + UNCONDITIONAL_MATCHLEN + UNCOMPRESSED_END < |plan.data| && NeverPoor(plan, |plan.items|)
    requires c0.cwordPtr - base <= size && base + size + 391 <= dest.Length
    modifies dest
    ensures refused ==> TooPoor(plan, |plan.items|)
    ensures !refused ==> Writing(dest, base, c, full, group, plan, start, src, groupStart) && |group| < GROUP
    ensures !refused ==> NeverPoor(plan, |plan.items| + 1) && c.cwordPtr - base <= size && c.dst + 4 <= dest.Length
    ensures dest[..base] == old(dest[..base])
  {
    hide Emitting, NeverPoor, TooPoor, Reaches, Stream;
    refused, c, full, group, groupStart := false, c0, full0, group0, groupStart0;
    FullMeansOdd(dest, base, c, full, group);
    PoorExactly(dest, base, c, full, group, plan, src);
    if c.w % 2 == 1 {
      if src - start > size / 2 && c.dst - base > (src - start) - (src - start) / 32 {
        refused := true;
        return;
      }
      c, full := NextGroup(dest, base, c, full, group, plan, start, src, groupStart);
      group, groupStart := [], src;
    }
  }

  /** The test for giving up, seen from the plan. */
  lemma PoorExactly(dest: array<byte>, base: nat, c: Cursor, full: seq<Item>, group: seq<Item>, plan: Plan, src: nat)
    requires Emitting(dest, base, c, full, group) && plan.items == full + group && Reaches(plan, src)
    requires src + UNCONDITIONAL_MATCHLEN + UNCOMPRESSED_END < |plan.data| && (group == [] ==> full == [])
    requires NeverPoor(plan, |plan.items|)
    ensures var done := src as int - plan.ps[0];
      TooPoor(plan, |plan.items|)
      <==> |group| == GROUP && done > (|plan.data| - plan.ps[0]) / 2 && c.dst - base > done - done / 32
    ensures !TooPoor(plan, |plan.items|) ==> NeverPoor(plan, |plan.items| + 1)
  {
    hide Stream, Filling, Payload, Control, Emitting, Latest;
    assert plan.items[..|plan.items|] == plan.items;
    WrittenSoFar(dest, base, c, full, group);
    WholeGroups(|full|, |group|);
    PositionsGrow(plan, 0, |plan.items|);
  }

  lemma WrittenSoFar(dest: array<byte>, base: nat, c: Cursor, full: seq<Item>, group: seq<Item>)
    requires Emitting(dest, base, c, full, group)
    ensures |full| % GROUP == 0 && |group| <= GROUP && AllEncodable(full + group)
    ensures |group| == GROUP ==> |Stream(full + group, 0)| == c.dst - base
  {
    hide Stream, Filling, Payload, Control;
    if |group| == GROUP {
      StreamAppend(full, 0, group);
      StreamOfGroup(group);
    }
  }

  lemma WholeGroups(n: nat, m: nat)
    requires n % GROUP == 0 && m <= GROUP
    ensures (n + m) % GROUP == 0 <==> m == 0 || m == GROUP
  {
  }

  /** Near the end the compressor does not give up any more. */
  lemma NotPoorAtEnd(plan: Plan, src: nat)
    requires Reaches(plan, src) && src + UNCONDITIONAL_MATCHLEN + UNCOMPRESSED_END >= |plan.data|
    requires NeverPoor(plan, |plan.items|)
    ensures NeverPoor(plan, |plan.items| + 1)
  {
    hide Stream;
  }

  lemma StartsWriting(dest: array<byte>, base: nat, c: Cursor, buf: seq<byte>, start: nat,
      offset: array<int>, cache: array<seq<byte>>, hashed: set<nat>)
    requires c == Cursor(base, base + CWORD_LEN, TOP_BIT) && c.dst <= dest.Length
    requires Finds(offset, cache, buf, hashed, start - 1) && forall q | q in hashed :: q < start
    ensures var plan := Plan([], [start], buf, hashed);
      Writing(dest, base, c, [], [], plan, start, start, start) && Compressing(buf, start, start, 0, offset, cache, plan)
      && Greedy(plan) && LiteralsBehind(plan, 0) && NeverPoor(plan, 0)
  {
  }

  lemma FindsIsTable(offset: array<int>, cache: array<seq<byte>>, data: seq<byte>, hashed: set<nat>, bound: int)
    requires Finds(offset, cache, data, hashed, bound)
    ensures IsTable(offset, cache)
  {
  }

  lemma FullMeansOdd(dest: array<byte>, base: nat, c: Cursor, full: seq<Item>, group: seq<Item>)
    requires Emitting(dest, base, c, full, group)
    ensures c.w % 2 == 1 <==> |group| == GROUP
    ensures |group| <= GROUP
  {
    FullIsOdd(group);
  }

  /** What is left behind the main loop, at most ten bytes. */
  method TailLoop(buf: seq<byte>, start: nat, src0: nat, dest: array<byte>, base: nat, c0: Cursor,
      offset: array<int>, cache: array<seq<byte>>,
      ghost plan0: Plan, ghost full0: seq<Item>, ghost group0: seq<Item>, ghost groupStart0: nat)
    returns (c: Cursor, ghost plan: Plan, ghost full: seq<Item>, ghost group: seq<Item>)
    requires start <= src0 < |buf| <= src0 + UNCONDITIONAL_MATCHLEN + UNCOMPRESSED_END
    requires c0.dst + 5 * 10 + 8 <= dest.Length
    requires Compressing(buf, start, src0, 0, offset, cache, plan0) && plan0.ps[0] == start
    requires Writing(dest, base, c0, full0, group0, plan0, start, src0, groupStart0)
    requires Greedy(plan0) && NeverPoor(plan0, |plan0.items| + 1)
    modifies dest, offset, cache
    ensures Compressing(buf, start, |buf|, 0, offset, cache, plan) && plan.ps[0] == start
    ensures Greedy(plan) && NeverPoor(plan, |plan.items| + 1)
    ensures forall q: nat | q < start :: q in plan.hashed <==> q in plan0.hashed
    ensures plan.items == full + group && Emitting(dest, base, c, full, group) && group != []
    ensures c.dst <= c0.dst + 50 && c.dst - base <= (|buf| - start) + CWORD_LEN + CWORD_LEN * (|buf| - start) / 31
    ensures dest[..base] == old(dest[..base])
  {
    hide Emitting, Stands, Finds, Latest, Greedy, NeverPoor;
    var src: nat := src0;
    c, plan, full, group := c0, plan0, full0, group0;
    ghost var groupStart := groupStart0;
    while src < |buf|
      invariant src0 <= src <= |buf| && Compressing(buf, start, src, 0, offset, cache, plan) && plan.ps[0] == start
      invariant forall q: nat | q < start :: q in plan.hashed <==> q in plan0.hashed
      invariant Writing(dest, base, c, full, group, plan, start, src, groupStart)
      invariant c.dst <= c0.dst + 5 * (src - src0) && dest[..base] == old(dest[..base])
      invariant src > src0 ==> group != []
      invariant Greedy(plan) && NeverPoor(plan, |plan.items| + 1)
    {
      FullMeansOdd(dest, base, c, full, group);
      if c.w % 2 == 1 {
        c, full := NextGroup(dest, base, c, full, group, plan, start, src, groupStart);
        group, groupStart := [], src;
      }
      var x;
      ghost var after;
      x, after := TailItem(buf, start, src, offset, cache, plan);
      AppendNeverPoor(plan, x, src + 1, after.hashed, |plan.items| + 1);
      NotPoorAtEnd(after, src + 1);
      c := EmitNext(dest, base, c, x, full, group, plan, after, start, src, groupStart);
      src, plan, group := src + 1, after, group + [x];
    }
  }

  /** qlz_compress_core: the number of bytes of the body, or 0 when it is not worth it. */
  method CompressCore(buf: seq<byte>, start: nat, dest: array<byte>, base: nat, offset: array<int>, cache: array<seq<byte>>,
      ghost before: Context)
    returns (r: nat, ghost plan: Plan)
    requires start < |buf| && base + (|buf| - start) + 391 <= dest.Length
    requires before.Valid() && before.data == buf[..start] && Finds(offset, cache, before.data, before.hashed, start - 1)
    modifies dest, offset, cache
    ensures r != 0 ==> 9 <= r <= (|buf| - start) + 156 && r <= Max(9, (|buf| - start) + CWORD_LEN + CWORD_LEN * (|buf| - start) / 31)
    ensures r != 0 ==> plan.data == buf && Encodes(dest[base..base + r], before, plan)
    ensures r != 0 ==> Greedy(plan) && NeverPoor(plan, |plan.items| + 1) && r == Max(9, |Stream(plan.items, 0)|)
    ensures r == 0 ==> GivesUp(before, buf, plan)
    ensures r != 0 ==> Finds(offset, cache, buf, plan.hashed, |buf| - 1)
    ensures IsTable(offset, cache)
    ensures dest[..base] == old(dest[..base])
  {
    hide Emitting, Stands, Finds, Latest, Greedy, NeverPoor, TooPoor, Stream;
    FindsMore(offset, cache, before, buf, start);
    var progress;
    ghost var full, group, groupStart;
    progress, plan, full, group, groupStart := MainLoop(buf, start, dest, base, offset, cache, before.hashed);
    if progress.Refused? { return 0, plan; }
    var c := progress.c;
    c, plan, full, group := TailLoop(buf, start, progress.src, dest, base, c, offset, cache, plan, full, group, groupStart);
    BoundsOfEmitting(dest, base, c, full, group);
    FindsIsTable(offset, cache, buf, plan.hashed, |buf| - 1);
    FinishGroup(dest, base, c, full, group);
    r := if c.dst - base < 9 then 9 else c.dst - base;
    ghost var body := dest[base..base + r];
    assert body[..c.dst - base] == dest[base..c.dst] == Stream(plan.items, 0);
  }

  lemma BoundsOfEmitting(dest: array<byte>, base: nat, c: Cursor, full: seq<Item>, group: seq<Item>)
    requires Emitting(dest, base, c, full, group)
    ensures base <= c.dst <= dest.Length
  {
  }

  lemma FindsMore(offset: array<int>, cache: array<seq<byte>>, before: Context, buf: seq<byte>, start: nat)
    requires start <= |buf| && before.data == buf[..start] && Finds(offset, cache, before.data, before.hashed, start - 1)
    ensures Finds(offset, cache, buf, before.hashed, start - 1) && forall q | q in before.hashed :: q < start
  {
    forall h | 0 <= h < HASH_VALUES
      ensures offset[h] == Latest(before.hashed, buf, h, start - 1)
    {
      LatestAgrees(before.hashed, before.hashed, before.data, buf, h, start - 1);
    }
    forall h | 0 <= h < HASH_VALUES && offset[h] != NONE
      ensures cache[h] == Word(buf, offset[h])
    {
      WordOfPrefix(buf, start, offset[h]);
    }
  }

  lemma WordOfPrefix(buf: seq<byte>, start: nat, p: nat)
    requires p + 4 <= start <= |buf|
    ensures Word(buf[..start], p) == Word(buf, p)
  {
  }
}
