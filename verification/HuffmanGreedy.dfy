/** The greedy merge that builds the tree: optimal, and bounded in depth. */
module HuffmanGreedy {
  import opened Bytes
  import opened HuffmanTree
  import opened HuffmanCost

  // ---- leaves ----

  /** Symbol and count of every leaf. */
  function Leaves(t: Tree): (ls: seq<(nat, nat)>)
    ensures |ls| == |Weights(t)| && forall i | 0 <= i < |ls| :: ls[i].1 == Weights(t)[i]
  {
    match t
    case Leaf(s, w) => [(s, w)]
    case Node(left, right, _) => Leaves(left) + Leaves(right)
  }

  function ForestLeaves(f: seq<Tree>): multiset<(nat, nat)> {
    if f == [] then multiset{} else multiset(Leaves(f[0])) + ForestLeaves(f[1..])
  }

  /** The counted symbols below `n`. */
  function Counted(counter: seq<nat>, n: nat): multiset<(nat, nat)>
    requires n <= |counter|
  {
    if n == 0 then multiset{}
    else if counter[n - 1] == 0 then Counted(counter, n - 1)
    else Counted(counter, n - 1) + multiset{(n - 1, counter[n - 1])}
  }

  // ---- the sorted set ----

  predicate Sorted(f: seq<Tree>) {
    forall i, j | 0 <= i < j < |f| :: f[i].occurrence >= f[j].occurrence
  }

  function InsertAt(f: seq<Tree>, k: nat, t: Tree): (r: seq<Tree>)
    requires k <= |f|
    ensures |r| == |f| + 1
  {
    f[..k] + [t] + f[k..]
  }

  lemma InsertOnly(f: seq<Tree>, k: nat, t: Tree)
    requires k <= |f|
    ensures forall x | x in InsertAt(f, k, t) :: x == t || x in f
  {
  }

  // ---- what the greedy merge keeps ----

  /** Inner nodes hold the sum of their children, as long as it fits 32 bits. */
  predicate Faithful(t: Tree) {
    t.Node? ==> Faithful(t.left) && Faithful(t.right) && t.occurrence == t.left.occurrence + t.right.occurrence
  }

  lemma {:induction false} FaithfulTotal(t: Tree)
    requires Faithful(t)
    ensures t.occurrence == Total(Weights(t))
  {
    if t.Node? {
      FaithfulTotal(t.left);
      FaithfulTotal(t.right);
      TotalConcat(Weights(t.left), Weights(t.right));
    }
  }

  function Roots(f: seq<Tree>): multiset<nat> {
    if f == [] then multiset{} else multiset{f[0].occurrence} + Roots(f[1..])
  }

  lemma {:induction false} RootIsInForest(f: seq<Tree>, x: nat)
    requires x in Roots(f)
    ensures exists i | 0 <= i < |f| :: f[i].occurrence == x
  {
    if f[0].occurrence != x {
      RootIsInForest(f[1..], x);
      var i :| 0 <= i < |f[1..]| && f[1..][i].occurrence == x;
      assert f[i + 1].occurrence == x;
    }
  }

  function ForestCost(f: seq<Tree>): nat {
    if f == [] then 0 else Cost(f[0]) + ForestCost(f[1..])
  }

  /** `u` joins the roots of the forest so that the whole costs no more than `t`. */
  ghost predicate Completes(u: Tree, f: seq<Tree>, t: Tree) {
    multiset(Weights(u)) == Roots(f) && ForestCost(f) + Cost(u) <= Cost(t)
  }

  /** Whatever tree is built over the same weights, the forest can still be completed to one
    * that is no worse. */
  ghost predicate StillOptimal(f: seq<Tree>, ws: multiset<nat>) {
    forall t | multiset(Weights(t)) == ws :: exists u :: Completes(u, f, t)
  }

  lemma {:induction false} CostInParts(f: seq<Tree>, g: seq<Tree>)
    ensures ForestCost(f + g) == ForestCost(f) + ForestCost(g)
  {
    hide Cost;
    if f == [] {
      assert f + g == g;
    } else {
      assert (f + g)[1..] == f[1..] + g;
      CostInParts(f[1..], g);
    }
  }

  lemma {:induction false} LeavesInParts(f: seq<Tree>, g: seq<Tree>)
    ensures ForestLeaves(f + g) == ForestLeaves(f) + ForestLeaves(g)
  {
    hide Leaves;
    if f == [] {
      assert f + g == g;
    } else {
      assert (f + g)[1..] == f[1..] + g;
      LeavesInParts(f[1..], g);
    }
  }

  lemma {:induction false} RootsInParts(f: seq<Tree>, g: seq<Tree>)
    ensures Roots(f + g) == Roots(f) + Roots(g)
  {
    if f == [] {
      assert f + g == g;
    } else {
      assert (f + g)[1..] == f[1..] + g;
      RootsInParts(f[1..], g);
    }
  }

  lemma SplitForest(f: seq<Tree>, g: seq<Tree>)
    ensures ForestCost(f + g) == ForestCost(f) + ForestCost(g)
    ensures ForestLeaves(f + g) == ForestLeaves(f) + ForestLeaves(g)
    ensures Roots(f + g) == Roots(f) + Roots(g)
  {
    hide *;
    CostInParts(f, g);
    LeavesInParts(f, g);
    RootsInParts(f, g);
  }

  /** Wherever an entry is put, it adds its own. */
  lemma InsertAdds(f: seq<Tree>, k: nat, t: Tree)
    requires k <= |f|
    ensures var g := InsertAt(f, k, t);
      && ForestCost(g) == ForestCost(f) + Cost(t)
      && ForestLeaves(g) == ForestLeaves(f) + multiset(Leaves(t))
      && Roots(g) == Roots(f) + multiset{t.occurrence}
  {
    hide Cost, Leaves, ForestCost, ForestLeaves, Roots;
    assert f == f[..k] + f[k..];
    SplitForest(f[..k], f[k..]);
    SplitForest(f[..k] + [t], f[k..]);
    SplitForest(f[..k], [t]);
    OneTree(t);
  }

  /** A forest without its last two entries, and those. */
  lemma SplitLastTwo(f: seq<Tree>)
    requires |f| >= 2
    ensures var init, n1, n2 := f[..|f| - 2], f[|f| - 1], f[|f| - 2];
      && ForestCost(f) == ForestCost(init) + Cost(n2) + Cost(n1)
      && ForestLeaves(f) == ForestLeaves(init) + multiset(Leaves(n2)) + multiset(Leaves(n1))
      && Roots(f) == Roots(init) + multiset{n2.occurrence, n1.occurrence}
  {
    hide Cost, Leaves, ForestCost, ForestLeaves, Roots;
    var init, n1, n2 := f[..|f| - 2], f[|f| - 1], f[|f| - 2];
    assert f == (init + [n2]) + [n1];
    SplitForest(init + [n2], [n1]);
    SplitForest(init, [n2]);
    OneTree(n1);
    OneTree(n2);
  }

  lemma OneTree(n: Tree)
    ensures ForestCost([n]) == Cost(n) && ForestLeaves([n]) == multiset(Leaves(n)) && Roots([n]) == multiset{n.occurrence}
  {
    hide Cost, Leaves;
    assert [n][1..] == [];
  }

  /** The smaller of the two last entries goes right. */
  function JoinTrees(n1: Tree, n2: Tree): Tree {
    var sum := (n1.occurrence + n2.occurrence) % UINT32;
    if n1.occurrence > n2.occurrence then Node(n1, n2, sum) else Node(n2, n1, sum)
  }

  /** Joins the last two entries and puts the new node in at the k-th place. Which places keep the
    * forest sorted is all that the order of equal entries can differ in. */
  function MergeAt(f: seq<Tree>, k: nat): (r: seq<Tree>)
    requires |f| >= 2 && k <= |f| - 2
    ensures |r| == |f| - 1
  {
    InsertAt(f[..|f| - 2], k, JoinTrees(f[|f| - 1], f[|f| - 2]))
  }

  lemma JoinCost(n1: Tree, n2: Tree)
    requires Faithful(n1) && Faithful(n2) && n1.occurrence + n2.occurrence < UINT32
    ensures Faithful(JoinTrees(n1, n2)) && Cost(JoinTrees(n1, n2)) == Cost(n1) + Cost(n2) + n1.occurrence + n2.occurrence
    ensures JoinTrees(n1, n2).occurrence == n1.occurrence + n2.occurrence
  {
    hide Cost, Weights, Total;
    CostOfNode(JoinTrees(n1, n2));
    FaithfulTotal(JoinTrees(n1, n2));
  }

  /** Taking two elements out and putting their sum in, once more element by element. */
  lemma MergeIs(rest: multiset<nat>, a: nat, b: nat, sum: nat)
    requires sum == a + b
    ensures Merge(rest + multiset{b, a}, a, b) == rest + multiset{sum}
  {
    TakenOut(rest, a, b);
  }

  lemma TakenOut(rest: multiset<nat>, a: nat, b: nat)
    ensures rest + multiset{b, a} - multiset{a, b} == rest
  {
    hide *;
    assert multiset{b, a} == multiset{a, b};
  }

  lemma MergeCost(f: seq<Tree>, k: nat)
    requires |f| >= 2 && k <= |f| - 2 && forall i | 0 <= i < |f| :: Faithful(f[i])
    requires f[|f| - 1].occurrence + f[|f| - 2].occurrence < UINT32
    ensures var a, b := f[|f| - 1].occurrence, f[|f| - 2].occurrence;
      ForestCost(MergeAt(f, k)) == ForestCost(f) + a + b && Roots(MergeAt(f, k)) == Merge(Roots(f), a, b)
  {
    hide Cost, Leaves, InsertAt, JoinTrees, ForestCost, ForestLeaves, Roots, Merge, Faithful;
    var init, n1, n2 := f[..|f| - 2], f[|f| - 1], f[|f| - 2];
    SplitLastTwo(f);
    JoinCost(n1, n2);
    InsertAdds(init, k, JoinTrees(n1, n2));
    MergeIs(Roots(init), n1.occurrence, n2.occurrence, JoinTrees(n1, n2).occurrence);
  }

  /** Wherever the new node is put, the forest can still be completed optimally. */
  lemma MergeKeepsOptimal(f: seq<Tree>, k: nat, ws: multiset<nat>)
    requires |f| >= 2 && k <= |f| - 2 && Sorted(f) && StillOptimal(f, ws)
    requires forall i | 0 <= i < |f| :: Faithful(f[i])
    requires f[|f| - 1].occurrence + f[|f| - 2].occurrence < UINT32
    ensures StillOptimal(MergeAt(f, k), ws)
  {
    hide Cost, Leaves, MergeAt, ForestCost, ForestLeaves, Roots, Weights;
    MergeCost(f, k);
    forall t | multiset(Weights(t)) == ws ensures exists u :: Completes(u, MergeAt(f, k), t) {
      var u :| Completes(u, f, t);
      LeastTwo(f, u);
      var v := Reduce(u, f[|f| - 1].occurrence, f[|f| - 2].occurrence);
      assert Completes(v, MergeAt(f, k), t);
    }
  }

  /** What is left when the least of the roots is taken out. */
  lemma WithoutLeast(f: seq<Tree>)
    requires |f| >= 2
    ensures var a, b, rest := f[|f| - 1].occurrence, f[|f| - 2].occurrence, Roots(f[..|f| - 2]);
      a in Roots(f) && Roots(f) - multiset{a} == rest + multiset{b}
  {
    hide Cost, Leaves, ForestCost, ForestLeaves, Roots;
    SplitLastTwo(f);
  }

  lemma LeastIsLeast(f: seq<Tree>, x: nat)
    requires |f| >= 2 && Sorted(f)
    ensures x in Roots(f) ==> f[|f| - 1].occurrence <= x
    ensures x in Roots(f[..|f| - 2]) ==> f[|f| - 2].occurrence <= x
  {
    hide Roots;
    if x in Roots(f) { RootIsInForest(f, x); }
    if x in Roots(f[..|f| - 2]) { RootIsInForest(f[..|f| - 2], x); }
  }

  lemma LeastOfAll(f: seq<Tree>, ws: seq<nat>)
    requires |f| >= 2 && Sorted(f) && multiset(ws) == Roots(f)
    ensures forall i | 0 <= i < |ws| :: f[|f| - 1].occurrence <= ws[i]
  {
    hide Roots, Sorted;
    forall i | 0 <= i < |ws| ensures f[|f| - 1].occurrence <= ws[i] {
      assert ws[i] in multiset(ws);
      LeastIsLeast(f, ws[i]);
    }
  }

  lemma LeastOfRest(f: seq<Tree>)
    requires |f| >= 2 && Sorted(f)
    ensures var a, b := f[|f| - 1].occurrence, f[|f| - 2].occurrence;
      forall x | x in Roots(f) - multiset{a} :: b <= x
  {
    hide Roots, Sorted;
    var a, b := f[|f| - 1].occurrence, f[|f| - 2].occurrence;
    WithoutLeast(f);
    forall x | x in Roots(f) - multiset{a} ensures b <= x {
      LeastIsLeast(f, x);
    }
  }

  /** The last two entries of the sorted forest are the least two weights. */
  lemma LeastTwo(f: seq<Tree>, u: Tree)
    requires |f| >= 2 && Sorted(f) && multiset(Weights(u)) == Roots(f)
    ensures var a, b := f[|f| - 1].occurrence, f[|f| - 2].occurrence;
      && u.Node? && a in Weights(u) && b in multiset(Weights(u)) - multiset{a}
      && (forall i | 0 <= i < |Weights(u)| :: a <= Weights(u)[i])
      && forall x | x in multiset(Weights(u)) - multiset{a} :: b <= x
  {
    hide Cost, Leaves, ForestCost, ForestLeaves, Roots, Sorted, Weights;
    WithoutLeast(f);
    LeastOfAll(f, Weights(u));
    LeastOfRest(f);
    if u.Leaf? { OneWeight(u, f[|f| - 1].occurrence, f[|f| - 2].occurrence); }
  }

  lemma OneWeight(u: Tree, a: nat, b: nat)
    requires u.Leaf? && a in multiset(Weights(u))
    ensures b !in multiset(Weights(u)) - multiset{a}
  {
  }

  // ---- how deep a tree can get ----

  function Fib(n: nat): nat {
    if n < 2 then n else Fib(n - 1) + Fib(n - 2)
  }

  lemma FibStep(n: nat)
    ensures Fib(n + 2) == Fib(n + 1) + Fib(n) && Fib(0) == 0 && Fib(1) == 1
  {
  }

  lemma {:induction false} FibGrows(m: nat, n: nat)
    requires m <= n
    ensures Fib(m) <= Fib(n)
  {
    if m < n { FibGrows(m, n - 1); }
  }

  function MaxChild(t: Tree): nat {
    match t
    case Leaf(_, _) => 0
    case Node(left, right, _) => Max(left.occurrence, right.occurrence)
  }

  /** Greedy merging joins a node only when nothing smaller than its children is left: no
    * child outweighs the sibling of its parent. */
  predicate SiblingOrder(t: Tree) {
    match t
    case Leaf(_, w) => w > 0
    case Node(left, right, _) =>
      SiblingOrder(left) && SiblingOrder(right)
      && MaxChild(left) <= right.occurrence && MaxChild(right) <= left.occurrence
  }

  /** The same between the entries of the forest. */
  predicate ForestOrder(f: seq<Tree>) {
    && (forall i | 0 <= i < |f| :: SiblingOrder(f[i]))
    && (forall i, j | 0 <= i < |f| && 0 <= j < |f| :: MaxChild(f[i]) <= f[j].occurrence)
  }

  lemma JoinOrder(n1: Tree, n2: Tree)
    requires SiblingOrder(n1) && SiblingOrder(n2) && n1.occurrence <= n2.occurrence
    requires MaxChild(n1) <= n2.occurrence && MaxChild(n2) <= n1.occurrence
    ensures SiblingOrder(JoinTrees(n1, n2)) && MaxChild(JoinTrees(n1, n2)) == n2.occurrence
    ensures JoinTrees(n1, n2).occurrence == (n1.occurrence + n2.occurrence) % UINT32
  {
  }

  /** Wherever the new node is put, no child outweighs the sibling of its parent. */
  lemma MergeKeepsOrder(f: seq<Tree>, k: nat)
    requires |f| >= 2 && k <= |f| - 2 && Sorted(f) && ForestOrder(f)
    requires f[|f| - 1].occurrence + f[|f| - 2].occurrence < UINT32
    ensures ForestOrder(MergeAt(f, k))
  {
    hide SiblingOrder, MaxChild, InsertAt, ForestOrder, Sorted;
    var init, n1, n2 := f[..|f| - 2], f[|f| - 1], f[|f| - 2];
    var node := JoinTrees(n1, n2);
    OrderOfElements(f);
    LastOnes(f);
    JoinOrder(n1, n2);
    InsertOnly(init, k, node);
    ElementsOrder(MergeAt(f, k));
  }

  /** The last but one has the least weight of those before the last. */
  lemma LastOnes(f: seq<Tree>)
    requires |f| >= 2 && Sorted(f)
    ensures f[|f| - 1] in f && f[|f| - 2] in f && f[|f| - 1].occurrence <= f[|f| - 2].occurrence
    ensures forall x | x in f[..|f| - 2] :: x in f && f[|f| - 2].occurrence <= x.occurrence
  {
  }

  lemma OrderOfElements(f: seq<Tree>)
    requires ForestOrder(f)
    ensures forall x | x in f :: SiblingOrder(x)
    ensures forall x, y | x in f && y in f :: MaxChild(x) <= y.occurrence
  {
    hide SiblingOrder, MaxChild;
  }

  lemma ElementsOrder(f: seq<Tree>)
    requires forall x | x in f :: SiblingOrder(x)
    requires forall x, y | x in f && y in f :: MaxChild(x) <= y.occurrence
    ensures ForestOrder(f)
  {
    hide SiblingOrder, MaxChild;
  }

  /** A tree of height h built greedily from positive counts holds at least Fib(h + 2). */
  lemma {:induction false} HeavyTree(t: Tree)
    requires Faithful(t) && SiblingOrder(t)
    ensures t.occurrence >= Fib(Height(t) + 2)
    ensures t.Node? ==> MaxChild(t) >= Fib(Height(t) + 1)
  {
    hide Fib;
    FibStep(0);
    if t.Node? {
      var l, r := t.left, t.right;
      HeavyTree(l);
      HeavyTree(r);
      Positive(l);
      Positive(r);
      TwoHeavy(Height(l), Height(r), l.occurrence, r.occurrence, MaxChild(l), MaxChild(r));
    }
  }

  lemma {:induction false} Positive(t: Tree)
    requires Faithful(t) && SiblingOrder(t)
    ensures t.occurrence > 0
  {
    if t.Node? { Positive(t.left); }
  }

  /** Two trees side by side, by heights, weights and greatest children. */
  lemma TwoHeavy(hl: nat, hr: nat, l: nat, r: nat, ml: nat, mr: nat)
    requires l >= Fib(hl + 2) && r >= Fib(hr + 2) && l > 0 && r > 0 && ml <= r && mr <= l
    requires hl > 0 ==> ml >= Fib(hl + 1)
    requires hr > 0 ==> mr >= Fib(hr + 1)
    ensures var h := 1 + Max(hl, hr); l + r >= Fib(h + 2) && Max(l, r) >= Fib(h + 1)
  {
    hide Fib;
    FibStep(hl + 1);
    FibStep(hr + 1);
    FibStep(0);
  }

  lemma {:induction false} CodeWithinHeight(t: Tree, prefix: seq<bool>, s: nat)
    requires s in Codes(t, prefix)
    ensures |Codes(t, prefix)[s]| <= |prefix| + Height(t)
  {
    if t.Node? {
      if s in Codes(t.right, prefix + [true]) {
        CodeWithinHeight(t.right, prefix + [true], s);
      } else {
        CodeWithinHeight(t.left, prefix + [false], s);
      }
    }
  }

  /** A leaf at depth d forces a total weight of at least Fib(d + 2). */
  lemma DeepLeafIsRare(t: Tree, s: nat)
    requires Faithful(t) && SiblingOrder(t) && s in Codes(t, [])
    ensures Fib(|Codes(t, [])[s]| + 2) <= t.occurrence
  {
    HeavyTree(t);
    CodeWithinHeight(t, [], s);
    FibGrows(|Codes(t, [])[s]| + 2, Height(t) + 2);
  }
}
