/** Which items the compressor chooses, told from the plan alone. */
module QuickLzGreedy {
  import opened Bytes
  import opened QuickLzFormat

  // ---- adding an item to the plan ----

  /** The plan so far ends at `src`, and nothing at or behind `src` has been hashed. */
  ghost predicate Reaches(plan: Plan, src: nat) {
    plan.Describes() && plan.ps[|plan.items|] == src && forall q | q in plan.hashed :: q < src
  }

  function Append(plan: Plan, x: Item, next: nat, hashed: set<nat>): Plan {
    Plan(plan.items + [x], plan.ps + [next], plan.data, hashed)
  }

  lemma AppendReaches(plan: Plan, x: Item, src: nat, hashed: set<nat>)
    requires Reaches(plan, src) && x.Encodable()
    requires hashed == plan.hashed || (hashed == plan.hashed + {src} && src + 4 <= |plan.data|)
    requires Stands(x, plan.data, src, hashed)
    ensures Reaches(Append(plan, x, src + x.Size(), hashed), src + x.Size())
  {
    hide Latest;
    var after := Append(plan, x, src + x.Size(), hashed);
    forall i | 0 <= i < |after.items|
      ensures after.ps[i + 1] == after.ps[i] + after.items[i].Size() && Stands(after.items[i], after.data, after.ps[i], hashed)
    {
      if i < |plan.items| {
        assert after.items[i] == plan.items[i] && after.ps[i] == plan.ps[i] && after.ps[i + 1] == plan.ps[i + 1];
        PositionsGrow(plan, i + 1, |plan.items|);
        if hashed != plan.hashed { StandsStable(plan.items[i], plan.data, plan.ps[i], plan.hashed, src); }
      }
    }
  }

  lemma {:induction false} PositionsGrow(plan: Plan, i: nat, j: nat)
    requires plan.Describes() && i <= j <= |plan.items|
    ensures plan.ps[i] <= plan.ps[j]
    decreases j - i
  {
    if i < j { PositionsGrow(plan, i, j - 1); }
  }

  // ---- the choice of items ----

  /** At least three bytes back, or one byte back inside a run of seven equal bytes, behind three
    * literals and not right behind the start of the packet. */
  ghost predicate FarOrRun(buf: seq<byte>, start: nat, src: nat, literals: bool, o: int) {
    || src - o > MINOFFSET
    || (src == o + 1 && literals && start + 3 < src && InRun(buf, src))
  }

  ghost predicate InRun(buf: seq<byte>, src: nat) {
    3 <= src && src + 3 < |buf| && forall x | src - 3 <= x <= src + 3 :: buf[x] == buf[src]
  }

  /** The bytes agree so far and no further, unless the match is as long as it may be. */
  ghost predicate Longest(data: seq<byte>, o: nat, p: nat, length: nat) {
    && SameBytes(data, o, p, length)
    && (length == 255 || p + length + UNCOMPRESSED_END >= |data| || data[p + length] != data[o + length])
  }

  /** The last three items before the i-th are literals. */
  predicate BehindLiterals(items: seq<Item>, i: nat)
    requires i <= |items|
  {
    3 <= i && items[i - 3].Literal? && items[i - 2].Literal? && items[i - 1].Literal?
  }

  /** The latest position hashed before the i-th item that has the same hash as its start. */
  function Entry(plan: Plan, i: nat): int
    requires i < |plan.ps|
  {
    var p: int := plan.ps[i];
    Latest(plan.hashed, plan.data, HashAt(plan.data, p), p - 1)
  }

  /** That entry can be used: three bytes agree there, and it is far enough back or in a run. */
  ghost predicate Matches(plan: Plan, i: nat)
    requires i < |plan.items| && |plan.ps| == |plan.items| + 1
  {
    var o, p := Entry(plan, i), plan.ps[i];
    o != NONE && SameBytes(plan.data, o, p, 3) && FarOrRun(plan.data, plan.ps[0], p, BehindLiterals(plan.items, i), o)
  }

  /** As long as more than ten bytes are left an item is a match exactly if it can be, and then as
    * long as possible; behind that all items are literals. */
  ghost predicate Chosen(plan: Plan, i: nat)
    requires i < |plan.items| && |plan.ps| == |plan.items| + 1
  {
    var p := plan.ps[i];
    && (plan.items[i].Match? <==> p + UNCONDITIONAL_MATCHLEN + UNCOMPRESSED_END < |plan.data| && Matches(plan, i))
    && (plan.items[i].Match? ==> Longest(plan.data, Entry(plan, i), p, plan.items[i].length))
  }

  ghost predicate Greedy(plan: Plan) {
    |plan.ps| == |plan.items| + 1 && forall i | 0 <= i < |plan.items| :: Chosen(plan, i)
  }

  // ---- giving up ----

  /** In front of the i-th item a control word is due, more than half of the packet is done, more
    * than ten bytes are left, and less than a 32nd has been saved. */
  ghost predicate TooPoor(plan: Plan, i: nat)
    requires i <= |plan.items| && |plan.ps| == |plan.items| + 1 && AllEncodable(plan.items)
  {
    var done: int := plan.ps[i] as int - plan.ps[0];
    && 0 < i && i % GROUP == 0 && plan.ps[i] + UNCONDITIONAL_MATCHLEN + UNCOMPRESSED_END < |plan.data|
    && done > (|plan.data| - plan.ps[0]) / 2 && |Stream(plan.items[..i], 0)| > done - done / 32
  }

  ghost predicate NeverPoor(plan: Plan, n: nat)
    requires n <= |plan.items| + 1 && |plan.ps| == |plan.items| + 1 && AllEncodable(plan.items)
  {
    forall i | 0 <= i < n :: !TooPoor(plan, i)
  }

  /** The plan of a packet that is stored: as far as the compressor came. */
  ghost predicate GivesUp(before: Context, data: seq<byte>, plan: Plan) {
    && Begins(before, data, plan) && Greedy(plan) && TooPoor(plan, |plan.items|)
  }

  /** A plan for what `data` adds to the context, perhaps not yet all of it. */
  ghost predicate Begins(before: Context, data: seq<byte>, plan: Plan) {
    && plan.data == data && plan.Describes() && plan.ps[0] == |before.data|
    && forall q: nat | q < |before.data| :: q in before.hashed <==> q in plan.hashed
  }

  // ---- one more item ----

  lemma EntryStays(plan: Plan, x: Item, src: nat, hashed: set<nat>, i: nat)
    requires Reaches(plan, src) && i <= |plan.items| && hashed <= plan.hashed + {src} && plan.hashed <= hashed
    requires src + 3 <= |plan.data| || hashed == plan.hashed
    ensures Entry(Append(plan, x, src + x.Size(), hashed), i) == Entry(plan, i)
  {
    PositionsGrow(plan, i, |plan.items|);
    var p: int := plan.ps[i];
    LatestAgrees(plan.hashed, hashed, plan.data, plan.data, HashAt(plan.data, p), p - 1);
  }

  /** Choosing one more item leaves the earlier choices as they are. */
  lemma AppendGreedy(plan: Plan, x: Item, src: nat, hashed: set<nat>)
    requires Reaches(plan, src) && Greedy(plan) && hashed <= plan.hashed + {src} && plan.hashed <= hashed
    requires src + 3 <= |plan.data| || hashed == plan.hashed
    requires Chosen(Append(plan, x, src + x.Size(), hashed), |plan.items|)
    ensures Greedy(Append(plan, x, src + x.Size(), hashed))
  {
    hide Latest, HashAt, SameBytes, FarOrRun;
    var after := Append(plan, x, src + x.Size(), hashed);
    forall i | 0 <= i < |after.items| ensures Chosen(after, i) {
      if i < |plan.items| {
        EntryStays(plan, x, src, hashed, i);
        assert Chosen(plan, i) && after.items[i] == plan.items[i] && after.ps[i] == plan.ps[i];
        assert BehindLiterals(after.items, i) == BehindLiterals(plan.items, i);
      }
    }
  }

  lemma AppendNeverPoor(plan: Plan, x: Item, next: nat, hashed: set<nat>, n: nat)
    requires |plan.ps| == |plan.items| + 1 && AllEncodable(plan.items) && x.Encodable() && n <= |plan.items| + 1
    requires NeverPoor(plan, n)
    ensures AllEncodable(plan.items + [x]) && NeverPoor(Append(plan, x, next, hashed), n)
  {
    hide Stream;
    var after := Append(plan, x, next, hashed);
    forall i | 0 <= i < n ensures !TooPoor(after, i) {
      assert !TooPoor(plan, i) && after.items[..i] == plan.items[..i];
    }
  }

  /** How many literals there are behind the last match. */
  ghost predicate LiteralsBehind(plan: Plan, lits: nat) {
    && lits <= |plan.items| && (forall i | |plan.items| - lits <= i < |plan.items| :: plan.items[i].Literal?)
    && (lits < |plan.items| ==> plan.items[|plan.items| - lits - 1].Match?)
  }

  lemma LiteralsAreBehind(plan: Plan, lits: nat)
    requires LiteralsBehind(plan, lits)
    ensures lits >= 3 <==> BehindLiterals(plan.items, |plan.items|)
  {
  }

  // ---- there is only one such plan ----

  /** What two plans have in common up to their i-th items. */
  ghost predicate Common(a: Plan, b: Plan, i: nat)
    requires a.Describes() && b.Describes()
  {
    && i <= |a.items| && i <= |b.items| && a.items[..i] == b.items[..i] && a.ps[..i + 1] == b.ps[..i + 1]
    && forall q: nat | q < a.ps[i] :: q in a.hashed <==> q in b.hashed
  }

  lemma SameEntry(a: Plan, b: Plan, i: nat)
    requires a.Describes() && b.Describes() && a.data == b.data && Common(a, b, i)
    ensures a.ps[i] == b.ps[i] && Entry(a, i) == Entry(b, i)
  {
    assert a.ps[..i + 1][i] == b.ps[..i + 1][i];
    var p: int := a.ps[i];
    LatestAgrees(a.hashed, b.hashed, a.data, b.data, HashAt(a.data, p), p - 1);
  }

  lemma SameKind(a: Plan, b: Plan, i: nat)
    requires a.Describes() && b.Describes() && a.data == b.data && Common(a, b, i) && i < |a.items| && i < |b.items|
    ensures Matches(a, i) <==> Matches(b, i)
  {
    hide Latest, HashAt, SameBytes, FarOrRun;
    SameEntry(a, b, i);
    assert a.ps[..i + 1][0] == b.ps[..i + 1][0];
    assert forall j | 0 <= j < i :: a.items[j] == a.items[..i][j] == b.items[..i][j] == b.items[j];
  }

  lemma SameLength(data: seq<byte>, o: nat, p: nat, m: nat, n: nat)
    requires Longest(data, o, p, m) && Longest(data, o, p, n) && m <= 255 && n <= 255
    requires p + m + UNCOMPRESSED_END <= |data| && p + n + UNCOMPRESSED_END <= |data|
    ensures m == n
  {
    hide SameBytes;
    if m < n { SameAt(data, o, p, n, m); }
    if n < m { SameAt(data, o, p, m, n); }
  }

  lemma SameAt(data: seq<byte>, o: nat, p: nat, length: nat, i: nat)
    requires SameBytes(data, o, p, length) && i < length
    ensures data[p + i] == data[o + i]
  {
    assert data[p + i] == data[p + i - (p - o)];
  }

  /** The hash that a match names is that of its start. */
  lemma HashOfMatch(x: Item, data: seq<byte>, p: nat, hashed: set<nat>)
    requires Stands(x, data, p, hashed) && x.Match?
    ensures x.hash == HashAt(data, p)
  {
    hide HashBytes;
    var o := Latest(hashed, data, x.hash, p - 3);
    var d := p - o;
    assert data[p] == data[p - d] && data[p + 1] == data[p + 1 - d] && data[p + 2] == data[p + 2 - d];
  }

  lemma SameItem(a: Plan, b: Plan, i: nat)
    requires a.Describes() && b.Describes() && a.data == b.data && Common(a, b, i) && i < |a.items| && i < |b.items|
    requires Greedy(a) && Greedy(b)
    ensures a.items[i] == b.items[i]
  {
    hide Latest, HashAt, SameBytes, FarOrRun;
    SameEntry(a, b, i);
    SameKind(a, b, i);
    assert Chosen(a, i) && Chosen(b, i);
    if a.items[i].Match? {
      HashOfMatch(a.items[i], a.data, a.ps[i], a.hashed);
      HashOfMatch(b.items[i], b.data, b.ps[i], b.hashed);
      hide Matches;
      SameLength(a.data, Entry(a, i), a.ps[i], a.items[i].length, b.items[i].length);
    }
  }

  lemma {:induction false} GreedyPrefix(a: Plan, b: Plan, i: nat)
    requires a.Describes() && b.Describes() && a.data == b.data && Common(a, b, 0) && Greedy(a) && Greedy(b)
    requires i <= |a.items| && i <= |b.items|
    ensures Common(a, b, i)
  {
    hide Greedy, Stands;
    if i > 0 {
      GreedyPrefix(a, b, i - 1);
      SameItem(a, b, i - 1);
      CommonNext(a, b, i - 1);
    }
  }

  lemma CommonNext(a: Plan, b: Plan, i: nat)
    requires a.Describes() && b.Describes() && a.data == b.data && Common(a, b, i) && i < |a.items| && i < |b.items|
    requires a.items[i] == b.items[i]
    ensures Common(a, b, i + 1)
  {
    hide Latest, HashAt, SameBytes;
    var p := a.ps[i];
    assert a.ps[..i + 1][i] == b.ps[..i + 1][i];
    assert a.items[..i + 1] == a.items[..i] + [a.items[i]] && b.items[..i + 1] == b.items[..i] + [b.items[i]];
    assert a.ps[..i + 2] == a.ps[..i + 1] + [a.ps[i + 1]] && b.ps[..i + 2] == b.ps[..i + 1] + [b.ps[i + 1]];
    assert Stands(a.items[i], a.data, p, a.hashed) && Stands(b.items[i], b.data, p, b.hashed);
  }

  lemma SamePosition(a: Plan, b: Plan, i: nat)
    requires a.Describes() && b.Describes() && Common(a, b, i)
    ensures a.ps[i] == b.ps[i] && a.ps[0] == b.ps[0]
  {
    assert a.ps[..i + 1][i] == b.ps[..i + 1][i] && a.ps[..i + 1][0] == b.ps[..i + 1][0];
  }

  lemma {:induction false} PlanIsLonger(a: Plan, b: Plan)
    requires a.Describes() && b.Whole() && a.data == b.data && Common(a, b, 0) && Greedy(a) && Greedy(b)
    requires a.ps[|a.items|] < |a.data|
    ensures |a.items| < |b.items|
  {
    hide Greedy, Stands;
    if |b.items| <= |a.items| {
      GreedyPrefix(a, b, |b.items|);
      SamePosition(a, b, |b.items|);
      PositionsGrow(a, |b.items|, |a.items|);
    }
  }

  /** A packet has only one plan, and is compressed by it or given up on the way, never both. */
  lemma OneOutcome(before: Context, data: seq<byte>, a: Plan, b: Plan)
    requires Begins(before, data, a) && Greedy(a) && a.Whole() && Begins(before, data, b) && Greedy(b)
    ensures b.Whole() ==> a.items == b.items && a.ps == b.ps
    ensures TooPoor(b, |b.items|) ==> !NeverPoor(a, |a.items| + 1)
  {
    hide Greedy, Stands, Stream;
    if b.Whole() {
      var n := if |a.items| < |b.items| then |a.items| else |b.items|;
      GreedyPrefix(a, b, n);
      SamePosition(a, b, n);
      if n < |a.items| { PositionsGrow(a, n + 1, |a.items|); }
      if n < |b.items| { PositionsGrow(b, n + 1, |b.items|); }
      assert a.items[..n] == a.items && b.items[..n] == b.items && a.ps[..n + 1] == a.ps && b.ps[..n + 1] == b.ps;
    }
    if TooPoor(b, |b.items|) {
      var n := |b.items|;
      PlanIsLonger(b, a);
      GreedyPrefix(a, b, n);
      SamePosition(a, b, n);
      assert b.items[..n] == b.items;
      assert TooPoor(a, n);
    }
  }
}
