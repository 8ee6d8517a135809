/** Counting bytes, building the tree from the counts, and the coder that results. */
module HuffmanBuilder {
  import opened Bytes
  import opened HuffmanTree
  import opened HuffmanCost
  import opened HuffmanGreedy
  import opened HuffmanCoder

  function Sum(counter: seq<nat>, n: nat): nat
    requires n <= |counter|
  {
    if n == 0 then 0 else Sum(counter, n - 1) + counter[n - 1]
  }

  // ---- the weights of any tree over the counted symbols ----

  function CountedWeights(counter: seq<nat>, n: nat): multiset<nat>
    requires n <= |counter|
  {
    if n == 0 then multiset{}
    else if counter[n - 1] == 0 then CountedWeights(counter, n - 1)
    else CountedWeights(counter, n - 1) + multiset{counter[n - 1]}
  }

  function Seconds(ls: seq<(nat, nat)>): (ws: seq<nat>)
    ensures |ws| == |ls| && forall i | 0 <= i < |ls| :: ws[i] == ls[i].1
  {
    seq(|ls|, i requires 0 <= i < |ls| => ls[i].1)
  }

  lemma Take<T>(ls: seq<T>, j: nat)
    requires j < |ls|
    ensures multiset(ls) == multiset(ls[..j] + ls[j + 1..]) + multiset{ls[j]}
  {
    assert ls == ls[..j] + [ls[j]] + ls[j + 1..];
  }

  /** Takes a given pair out of a list. */
  lemma TakePair(ls: seq<(nat, nat)>, m: multiset<(nat, nat)>, p: (nat, nat)) returns (r: seq<(nat, nat)>)
    requires multiset(ls) == m + multiset{p}
    ensures multiset(r) == m && multiset(Seconds(ls)) == multiset(Seconds(r)) + multiset{p.1}
  {
    assert p in multiset(ls);
    var j :| 0 <= j < |ls| && ls[j] == p;
    r := ls[..j] + ls[j + 1..];
    Take(ls, j);
    Take(Seconds(ls), j);
    assert Seconds(r) == Seconds(ls)[..j] + Seconds(ls)[j + 1..];
    assert multiset(ls) - multiset{p} == m;
  }

  lemma {:induction false} SecondsOfCounted(counter: seq<nat>, n: nat, ls: seq<(nat, nat)>)
    requires n <= |counter| && multiset(ls) == Counted(counter, n)
    ensures multiset(Seconds(ls)) == CountedWeights(counter, n)
  {
    if n == 0 {
      assert |multiset(ls)| == |ls|;
    } else if counter[n - 1] == 0 {
      SecondsOfCounted(counter, n - 1, ls);
    } else {
      var rest := TakePair(ls, Counted(counter, n - 1), (n - 1, counter[n - 1]));
      SecondsOfCounted(counter, n - 1, rest);
    }
  }

  lemma WeightsOfCounted(counter: seq<nat>, n: nat, t: Tree)
    requires n <= |counter| && multiset(Leaves(t)) == Counted(counter, n)
    ensures multiset(Weights(t)) == CountedWeights(counter, n)
  {
    assert Seconds(Leaves(t)) == Weights(t);
    SecondsOfCounted(counter, n, Leaves(t));
  }

  // ---- the state of the merge loop ----

  function ForestTotal(f: seq<Tree>): nat {
    if f == [] then 0 else f[0].occurrence + ForestTotal(f[1..])
  }

  lemma {:induction false} TotalOfRoots(f: seq<Tree>, i: nat, j: nat)
    requires i < j < |f|
    ensures f[i].occurrence + f[j].occurrence <= ForestTotal(f)
  {
    if i > 0 {
      TotalOfRoots(f[1..], i - 1, j - 1);
    } else {
      OneOfRoots(f[1..], j - 1);
    }
  }

  lemma {:induction false} OneOfRoots(f: seq<Tree>, i: nat)
    requires i < |f|
    ensures f[i].occurrence <= ForestTotal(f)
  {
    if i > 0 { OneOfRoots(f[1..], i - 1); }
  }

  lemma {:induction false} TotalInParts(f: seq<Tree>, g: seq<Tree>)
    ensures ForestTotal(f + g) == ForestTotal(f) + ForestTotal(g)
  {
    if f == [] {
      assert f + g == g;
    } else {
      assert (f + g)[1..] == f[1..] + g;
      TotalInParts(f[1..], g);
    }
  }

  lemma InsertTotal(f: seq<Tree>, k: nat, t: Tree)
    requires k <= |f|
    ensures ForestTotal(InsertAt(f, k, t)) == ForestTotal(f) + t.occurrence
  {
    assert f == f[..k] + f[k..] && [t][1..] == [];
    TotalInParts(f[..k], f[k..]);
    TotalInParts(f[..k] + [t], f[k..]);
    TotalInParts(f[..k], [t]);
  }

  lemma SplitTotal(f: seq<Tree>)
    requires |f| >= 2
    ensures ForestTotal(f) == ForestTotal(f[..|f| - 2]) + f[|f| - 2].occurrence + f[|f| - 1].occurrence
  {
    var init, last := f[..|f| - 2], [f[|f| - 2], f[|f| - 1]];
    assert f == init + last && last[1..] == [last[1]] && last[1..][1..] == [];
    TotalInParts(init, last);
  }

  /** What holds while the counts add up to less than 2^32. */
  ghost predicate Exact(f: seq<Tree>, ws: multiset<nat>, total: nat) {
    && total < UINT32 && ForestTotal(f) == total
    && (forall i | 0 <= i < |f| :: Faithful(f[i]))
    && ForestOrder(f) && StillOptimal(f, ws)
  }

  ghost predicate Merging(f: seq<Tree>, counter: seq<nat>)
    requires |counter| == 257
  {
    && f != [] && Sorted(f) && ForestLeaves(f) == Counted(counter, 257)
    && (Sum(counter, 257) < UINT32 ==> Exact(f, CountedWeights(counter, 257), Sum(counter, 257)))
  }

  lemma MergeIsFaithful(f: seq<Tree>, k: nat, total: nat)
    requires |f| >= 2 && k <= |f| - 2 && total < UINT32 && ForestTotal(f) == total
    requires forall i | 0 <= i < |f| :: Faithful(f[i])
    ensures ForestTotal(MergeAt(f, k)) == total && f[|f| - 1].occurrence + f[|f| - 2].occurrence < UINT32
    ensures var g := MergeAt(f, k); forall i | 0 <= i < |g| :: Faithful(g[i])
  {
    hide Faithful, ForestTotal, InsertAt, JoinTrees, Cost;
    var init, n1, n2 := f[..|f| - 2], f[|f| - 1], f[|f| - 2];
    TotalOfRoots(f, |f| - 2, |f| - 1);
    JoinCost(n1, n2);
    SplitTotal(f);
    InsertTotal(init, k, JoinTrees(n1, n2));
    InsertOnly(init, k, JoinTrees(n1, n2));
    var g := MergeAt(f, k);
    forall i | 0 <= i < |g| ensures Faithful(g[i]) {
      assert g[i] in g;
    }
  }

  lemma MergeLeaves(f: seq<Tree>, k: nat)
    requires |f| >= 2 && k <= |f| - 2
    ensures ForestLeaves(MergeAt(f, k)) == ForestLeaves(f)
  {
    hide InsertAt, ForestLeaves, Leaves, JoinTrees, ForestCost, Cost, Roots;
    var init, n1, n2 := f[..|f| - 2], f[|f| - 1], f[|f| - 2];
    SplitLastTwo(f);
    InsertAdds(init, k, JoinTrees(n1, n2));
    JoinLeaves(n1, n2);
  }

  lemma JoinLeaves(n1: Tree, n2: Tree)
    ensures multiset(Leaves(JoinTrees(n1, n2))) == multiset(Leaves(n2)) + multiset(Leaves(n1))
  {
  }

  /** One merge keeps all of it, wherever among its equals the new node is put. */
  lemma MergeKeeps(f: seq<Tree>, k: nat, counter: seq<nat>)
    requires |counter| == 257 && |f| >= 2 && k <= |f| - 2 && Merging(f, counter) && Sorted(MergeAt(f, k))
    ensures Merging(MergeAt(f, k), counter)
  {
    hide InsertAt, ForestLeaves, Counted, CountedWeights, Sum, StillOptimal, ForestOrder, Faithful, ForestTotal, JoinTrees;
    MergeLeaves(f, k);
    var total, ws := Sum(counter, 257), CountedWeights(counter, 257);
    if total < UINT32 {
      MergeIsFaithful(f, k, total);
      MergeKeepsOrder(f, k);
      MergeKeepsOptimal(f, k, ws);
    }
  }

  // ---- the forest of leaves ----

  /** One leaf for each counted symbol below `n`. */
  ghost predicate Planted(f: seq<Tree>, counter: seq<nat>, n: nat)
    requires n <= |counter|
  {
    && Sorted(f) && ForestLeaves(f) == Counted(counter, n) && Roots(f) == CountedWeights(counter, n)
    && (forall i | 0 <= i < |f| :: f[i].Leaf? && f[i].occurrence > 0)
    && ForestTotal(f) == Sum(counter, n)
  }

  lemma PlantOne(f: seq<Tree>, k: nat, counter: seq<nat>, n: nat)
    requires n < |counter| && counter[n] > 0 && Planted(f, counter, n)
    requires k <= |f| && Sorted(InsertAt(f, k, Leaf(n, counter[n])))
    ensures Planted(InsertAt(f, k, Leaf(n, counter[n])), counter, n + 1)
  {
    hide InsertAt, ForestLeaves, Roots, ForestTotal, Sorted;
    var leaf := Leaf(n, counter[n]);
    InsertAdds(f, k, leaf);
    InsertTotal(f, k, leaf);
    InsertOnly(f, k, leaf);
    var g := InsertAt(f, k, leaf);
    forall i | 0 <= i < |g| ensures g[i].Leaf? && g[i].occurrence > 0 {
      assert g[i] in g;
    }
  }

  lemma {:induction false} LeavesCostNothing(f: seq<Tree>)
    requires forall i | 0 <= i < |f| :: f[i].Leaf?
    ensures ForestCost(f) == 0
  {
    if f != [] {
      CostOfLeaf(f[0]);
      LeavesCostNothing(f[1..]);
    }
  }

  /** Before any merge every tree over the weights is itself a completion. */
  lemma PlantedIsMerging(f: seq<Tree>, counter: seq<nat>)
    requires |counter| == 257 && counter[256] > 0 && Planted(f, counter, 257)
    ensures Merging(f, counter)
  {
    hide ForestLeaves, Roots, ForestTotal, CountedWeights, Sum, Cost, Weights, ForestCost;
    LeavesCostNothing(f);
    assert (256, counter[256]) in Counted(counter, 257);
    NoLeaves(f);
    hide Counted;
    var ws := CountedWeights(counter, 257);
    forall t | multiset(Weights(t)) == ws ensures exists u :: Completes(u, f, t) {
      assert Completes(t, f, t);
    }
  }

  lemma NoLeaves(f: seq<Tree>)
    ensures f == [] ==> ForestLeaves(f) == multiset{}
  {
  }

  // ---- the leaves of the finished tree ----

  lemma {:induction false} InCounted(counter: seq<nat>, n: nat, s: nat, w: nat)
    requires n <= |counter|
    ensures (s, w) in Counted(counter, n) <==> s < n && counter[s] == w && w > 0
  {
    if n > 0 { InCounted(counter, n - 1, s, w); }
  }

  lemma {:induction false} SymbolsOfLeaves(t: Tree, s: nat)
    ensures s in Symbols(t) <==> exists w: nat :: (s, w) in multiset(Leaves(t))
  {
    match t
    case Leaf(symbol, w) =>
      assert Leaves(t) == [(symbol, w)];
      assert (symbol, w) in multiset(Leaves(t));
    case Node(left, right, _) =>
      SymbolsOfLeaves(left, s);
      SymbolsOfLeaves(right, s);
      assert multiset(Leaves(t)) == multiset(Leaves(left)) + multiset(Leaves(right));
  }

  lemma {:induction false} SymbolsAreKnown(t: Tree)
    requires forall p | p in Leaves(t) :: p.0 <= HUFFMAN_EOF
    ensures KnownSymbols(t)
  {
    match t
    case Leaf(symbol, w) =>
      assert (symbol, w) in Leaves(t);
    case Node(left, right, _) =>
      assert forall p | p in Leaves(left) || p in Leaves(right) :: p in Leaves(t);
      SymbolsAreKnown(left);
      SymbolsAreKnown(right);
  }

  /** The symbols with a code are those that were counted. */
  lemma CodesOfCounted(root: Tree, counter: seq<nat>)
    requires |counter| == 257 && multiset(Leaves(root)) == Counted(counter, 257)
    ensures KnownSymbols(root)
    ensures forall s: nat :: s in Codes(root, []) <==> s <= HUFFMAN_EOF && counter[s] > 0
  {
    hide Leaves, Counted;
    forall p | p in Leaves(root) ensures p.0 <= HUFFMAN_EOF {
      assert (p.0, p.1) in multiset(Leaves(root));
      InCounted(counter, 257, p.0, p.1);
    }
    SymbolsAreKnown(root);
    CodesCoverLeaves(root, []);
    forall s: nat ensures s in Codes(root, []) <==> s <= HUFFMAN_EOF && counter[s] > 0 {
      SymbolsOfLeaves(root, s);
      forall w: nat ensures (s, w) in Counted(counter, 257) <==> s < 257 && counter[s] == w && w > 0 {
        InCounted(counter, 257, s, w);
      }
      if s <= HUFFMAN_EOF { assert (s, counter[s]) in multiset(Leaves(root)) <==> counter[s] > 0; }
    }
  }

  /** Two counted symbols make an inner root. */
  lemma TwoSymbols(root: Tree, s: nat, u: nat)
    requires s in Codes(root, []) && u in Codes(root, []) && s != u
    ensures root.Node?
  {
  }

  // ---- the builder ----

  /** What any caller may rely on: the tree has exactly the counted leaves and, while the
    * counts add up to less than 2^32, no tree over them is cheaper and rare symbols alone
    * lie deep. */
  ghost predicate Built(root: Tree, counter: seq<nat>)
    requires |counter| == 257
  {
    && multiset(Leaves(root)) == Counted(counter, 257)
    && (Sum(counter, 257) < UINT32 ==> Optimal(root, counter) && Shallow(root, Sum(counter, 257)))
  }

  ghost predicate Optimal(root: Tree, counter: seq<nat>)
    requires |counter| == 257
  {
    forall t | multiset(Weights(t)) == CountedWeights(counter, 257) :: Cost(root) <= Cost(t)
  }

  ghost predicate Shallow(root: Tree, total: nat) {
    forall s | s in Codes(root, []) :: Fib(|Codes(root, [])[s]| + 2) <= total
  }

  lemma MergedIsBuilt(f: seq<Tree>, counter: seq<nat>)
    requires |counter| == 257 && |f| == 1 && Merging(f, counter)
    ensures Built(f[0], counter)
  {
    hide Counted, CountedWeights, Sum, Cost, Weights, Fib, Faithful, SiblingOrder, Leaves;
    assert ForestLeaves(f) == multiset(Leaves(f[0])) by { assert f[1..] == []; }
    if Sum(counter, 257) < UINT32 {
      assert ForestCost(f) == Cost(f[0]) && ForestTotal(f) == f[0].occurrence by { assert f[1..] == []; }
      forall t | multiset(Weights(t)) == CountedWeights(counter, 257) ensures Cost(f[0]) <= Cost(t) {
        var u :| Completes(u, f, t);
      }
      forall s | s in Codes(f[0], []) ensures Fib(|Codes(f[0], [])[s]| + 2) <= Sum(counter, 257) {
        DeepLeafIsRare(f[0], s);
      }
    }
  }

  /** A tree over the same leaves costs at least as much. */
  lemma NoTreeIsCheaper(root: Tree, counter: seq<nat>, t: Tree)
    requires |counter| == 257 && Sum(counter, 257) < UINT32
    requires Built(root, counter) && multiset(Leaves(t)) == multiset(Leaves(root))
    ensures Cost(root) <= Cost(t)
  {
    WeightsOfCounted(counter, 257, t);
  }

  /** Fewer than Fib(35) counts keep every code within the 32 bits of its table entry. */
  lemma CodesStayShort(root: Tree, counter: seq<nat>)
    requires |counter| == 257 && Built(root, counter) && Sum(counter, 257) < 9227465
    ensures CodesFit(Codes(root, []))
  {
    hide Counted, CountedWeights, Sum, Leaves, Fib;
    Fib35();
    forall s | s in Codes(root, []) ensures |Codes(root, [])[s]| <= 32 {
      var d := |Codes(root, [])[s]|;
      if d > 32 { FibGrows(35, d + 2); }
    }
  }

  lemma Fib35()
    ensures Fib(35) == 9227465
  {
    assert Fib(2) == 1 && Fib(3) == 2;
    assert Fib(4) == 3 && Fib(5) == 5;
    assert Fib(6) == 8 && Fib(7) == 13;
    assert Fib(8) == 21 && Fib(9) == 34;
    assert Fib(10) == 55 && Fib(11) == 89;
    assert Fib(12) == 144 && Fib(13) == 233;
    assert Fib(14) == 377 && Fib(15) == 610;
    assert Fib(16) == 987 && Fib(17) == 1597;
    assert Fib(18) == 2584 && Fib(19) == 4181;
    assert Fib(20) == 6765 && Fib(21) == 10946;
    assert Fib(22) == 17711 && Fib(23) == 28657;
    assert Fib(24) == 46368 && Fib(25) == 75025;
    assert Fib(26) == 121393 && Fib(27) == 196418;
    assert Fib(28) == 317811 && Fib(29) == 514229;
    assert Fib(30) == 832040 && Fib(31) == 1346269;
    assert Fib(32) == 2178309 && Fib(33) == 3524578;
  }

  /** Every byte of the data counted once more, modulo 2^32. */
  predicate Tallied(before: seq<nat>, data: seq<byte>, after: seq<nat>) {
    && |before| == |after| == 257
    && (forall i | 0 <= i < 256 :: after[i] == (before[i] + multiset(data)[i as byte]) % UINT32)
  }

  lemma TallyOne(before: seq<nat>, data: seq<byte>, after: seq<nat>, b: byte)
    requires Tallied(before, data, after)
    ensures Tallied(before, data + [b], after[b := (after[b] + 1) % UINT32])
  {
    forall i | 0 <= i < 256
      ensures after[b := (after[b] + 1) % UINT32][i] == (before[i] + multiset(data + [b])[i as byte]) % UINT32
    {
      if i == b { AddModulo(before[i] + multiset(data)[b], 1); }
    }
  }

  /** Insertion into std::multiset ordered by falling occurrence. C++11 puts a new entry behind its
    * equals; all that callers rely on is that the order is kept. */
  method Insert(f: seq<Tree>, t: Tree) returns (r: seq<Tree>, ghost k: nat)
    requires Sorted(f)
    ensures k <= |f| && r == InsertAt(f, k, t) && Sorted(r)
  {
    var i := 0;
    while i < |f| && f[i].occurrence >= t.occurrence
      invariant i <= |f| && forall j | 0 <= j < i :: f[j].occurrence >= t.occurrence
    {
      i := i + 1;
    }
    r, k := f[..i] + [t] + f[i..], i;
  }

  lemma AddWraps(a: nat, b: nat)
    ensures (a % UINT64 + b) % UINT64 == (a + b) % UINT64
  {
  }

  class Builder {
    const counter: array<nat>
    var cntTotal: nat

    /** One count for the end marker, and one for every byte if asked for. */
    constructor (ensureAllBytes: bool)
      ensures Valid() && fresh(counter) && cntTotal == 257
      ensures forall i | 0 <= i < 256 :: counter[i] == if ensureAllBytes then 1 else 0
    {
      var val := if ensureAllBytes then 1 else 0;
      counter := new nat[257](i => if i == 256 then 1 else val);
      cntTotal := 257;
    }

    predicate Valid()
      reads counter
    {
      counter.Length == 257 && counter[256] == 1 && forall i | 0 <= i < 257 :: counter[i] < UINT32
    }

    method SetCounterValues(values: seq<nat>)
      requires Valid() && |values| == 256 && forall i | 0 <= i < 256 :: values[i] < UINT32
      modifies this, counter
      ensures Valid() && counter[..256] == values && cntTotal == Sum(values, 256) % UINT64
    {
      cntTotal := 0;
      for i := 0 to 256
        invariant counter[..i] == values[..i] && counter[256] == 1
        invariant forall j | 0 <= j < 257 :: counter[j] < UINT32
        invariant cntTotal == Sum(values, i) % UINT64
      {
        AddWraps(Sum(values, i), values[i]);
        counter[i] := values[i];
        cntTotal := (cntTotal + values[i]) % UINT64;
        assert values[..i + 1] == values[..i] + [values[i]];
      }
    }

    /** Every byte of the data is counted once more; the counts wrap at 2^32. */
    method Append(data: seq<byte>)
      requires Valid() && |data| < UINT32
      modifies this, counter
      ensures Valid() && cntTotal == (old(cntTotal) + |data|) % UINT64
      ensures Tallied(old(counter[..]), data, counter[..])
    {
      for i := 0 to |data|
        invariant counter[256] == 1 && cntTotal == old(cntTotal)
        invariant Tallied(old(counter[..]), data[..i], counter[..])
      {
        TallyOne(old(counter[..]), data[..i], counter[..], data[i]);
        assert data[..i + 1] == data[..i] + [data[i]];
        hide Tallied;
        counter[data[i]] := (counter[data[i]] + 1) % UINT32;
      }
      assert data[..|data|] == data;
      cntTotal := (cntTotal + |data|) % UINT64;
    }

    /** Sorts one leaf per counted symbol. */
    method PlantLeaves() returns (huffSet: seq<Tree>)
      requires Valid()
      ensures Planted(huffSet, counter[..], 257)
    {
      hide InsertAt, ForestLeaves, Roots, ForestTotal, Sorted;
      huffSet := [];
      assert Planted(huffSet, counter[..], 0) by { NothingPlanted(counter[..]); }
      for i := 0 to 257
        invariant Planted(huffSet, counter[..], i)
      {
        if counter[i] != 0 {
          ghost var before, k := huffSet, 0;
          huffSet, k := Insert(huffSet, Leaf(i, counter[i]));
          PlantOne(before, k, counter[..], i);
        }
      }
    }

    method GetTree() returns (root: Tree)
      requires Valid()
      ensures Built(root, counter[..])
    {
      hide Built, Merging, Planted, InsertAt;
      var huffSet := PlantLeaves();
      PlantedIsMerging(huffSet, counter[..]);
      NotEmpty(huffSet, counter[..]);
      while |huffSet| > 1
        invariant huffSet != [] && Merging(huffSet, counter[..])
      {
        ghost var before, k := huffSet, 0;
        MergingIsSorted(huffSet, counter[..]);
        var n1 := huffSet[|huffSet| - 1];
        var n2 := huffSet[|huffSet| - 2];
        var occurrence: nat := (n1.occurrence + n2.occurrence) % UINT32;
        var left, right := n2, n1;
        if n1.occurrence > n2.occurrence { left, right := n1, n2; }
        huffSet, k := Insert(huffSet[..|huffSet| - 2], Node(left, right, occurrence));
        MergeKeeps(before, k, counter[..]);
      }
      MergedIsBuilt(huffSet, counter[..]);
      root := huffSet[0];
    }

    lemma MergingIsSorted(f: seq<Tree>, counter: seq<nat>)
      requires |counter| == 257 && |f| >= 2 && Merging(f, counter)
      ensures Sorted(f) && Sorted(f[..|f| - 2])
    {
    }

    lemma NotEmpty(f: seq<Tree>, counter: seq<nat>)
      requires |counter| == 257 && Merging(f, counter)
      ensures f != []
    {
    }
  }

  lemma NothingPlanted(counter: seq<nat>)
    ensures Planted([], counter, 0)
  {
  }
}
