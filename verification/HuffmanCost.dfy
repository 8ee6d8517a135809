/** The cost of a tree and why merging the two rarest entries is never wrong: any tree can be
  * changed, at no cost, so that they are the deepest pair. */
module HuffmanCost {
  import opened Bytes
  import opened HuffmanTree

  // ---- weights, depths, cost ----

  /** The occurrences of the leaves, from left to right. */
  function Weights(t: Tree): (ws: seq<nat>)
    ensures |ws| >= 1
  {
    match t
    case Leaf(_, w) => [w]
    case Node(left, right, _) => Weights(left) + Weights(right)
  }

  function Depths(t: Tree, depth: nat): (ds: seq<nat>)
    ensures |ds| == |Weights(t)|
  {
    match t
    case Leaf(_, _) => [depth]
    case Node(left, right, _) => Depths(left, depth + 1) + Depths(right, depth + 1)
  }

  function Dot(ws: seq<nat>, ds: seq<nat>): nat
    requires |ws| == |ds|
  {
    if ws == [] then 0 else ws[0] * ds[0] + Dot(ws[1..], ds[1..])
  }

  /** The number of bits that coding every symbol as often as it occurs takes. */
  function Cost(t: Tree): nat { Dot(Weights(t), Depths(t, 0)) }

  function Total(ws: seq<nat>): nat {
    if ws == [] then 0 else ws[0] + Total(ws[1..])
  }

  lemma {:induction false} TotalConcat(a: seq<nat>, b: seq<nat>)
    ensures Total(a + b) == Total(a) + Total(b)
  {
    if a == [] { assert a + b == b; }
    else {
      assert (a + b)[1..] == a[1..] + b;
      TotalConcat(a[1..], b);
    }
  }

  lemma {:induction false} DotConcat(a: seq<nat>, b: seq<nat>, c: seq<nat>, d: seq<nat>)
    requires |a| == |c| && |b| == |d|
    ensures Dot(a + b, c + d) == Dot(a, c) + Dot(b, d)
  {
    if a == [] {
      assert a + b == b && c + d == d;
    } else {
      assert (a + b)[1..] == a[1..] + b && (c + d)[1..] == c[1..] + d;
      DotConcat(a[1..], b, c[1..], d);
    }
  }

  /** One level deeper costs every weight once more. */
  lemma {:induction false} DotDeeper(ws: seq<nat>, ds: seq<nat>, es: seq<nat>)
    requires |ws| == |ds| == |es| && forall i | 0 <= i < |ds| :: es[i] == ds[i] + 1
    ensures Dot(ws, es) == Dot(ws, ds) + Total(ws)
  {
    if ws != [] {
      DotDeeper(ws[1..], ds[1..], es[1..]);
      assert ws[0] * es[0] == ws[0] * ds[0] + ws[0];
    }
  }

  lemma {:induction false} DepthsShift(t: Tree, depth: nat)
    ensures forall i | 0 <= i < |Weights(t)| :: Depths(t, depth + 1)[i] == Depths(t, depth)[i] + 1
  {
    if t.Node? {
      DepthsShift(t.left, depth + 1);
      DepthsShift(t.right, depth + 1);
    }
  }

  /** The cost is the sum of the weights of all inner nodes. */
  lemma CostOfNode(t: Tree)
    requires t.Node?
    ensures Cost(t) == Cost(t.left) + Cost(t.right) + Total(Weights(t))
  {
    var l, r := t.left, t.right;
    DotConcat(Weights(l), Weights(r), Depths(l, 1), Depths(r, 1));
    DepthsShift(l, 0);
    DepthsShift(r, 0);
    DotDeeper(Weights(l), Depths(l, 0), Depths(l, 1));
    DotDeeper(Weights(r), Depths(r, 0), Depths(r, 1));
    TotalConcat(Weights(l), Weights(r));
  }

  // ---- exchanging two weights ----

  lemma {:induction false} DotUpdate(ws: seq<nat>, ds: seq<nat>, i: nat, w: nat)
    requires |ws| == |ds| && i < |ws|
    ensures Dot(ws[i := w], ds) == Dot(ws, ds) - ws[i] * ds[i] + w * ds[i]
  {
    if i == 0 {
      assert ws[0 := w][1..] == ws[1..];
    } else {
      assert ws[i := w][1..] == ws[1..][i - 1 := w];
      DotUpdate(ws[1..], ds[1..], i - 1, w);
    }
  }

  function Swap(ws: seq<nat>, i: nat, j: nat): (r: seq<nat>)
    requires i < |ws| && j < |ws|
    ensures |r| == |ws| && multiset(r) == multiset(ws)
  {
    ws[i := ws[j]][j := ws[i]]
  }

  lemma Cross(x: nat, y: nat, d: nat, e: nat)
    requires y <= x && e <= d
    ensures y * d + x * e <= x * d + y * e
  {
    assert (x - y) * (d - e) == (x - y) * d - (x - y) * e;
    assert (x - y) * d == x * d - y * d;
    assert (x - y) * e == x * e - y * e;
  }

  /** Moving a smaller weight to a deeper place does not increase the cost. */
  lemma SwapDown(ws: seq<nat>, ds: seq<nat>, i: nat, j: nat)
    requires |ws| == |ds| && i < |ws| && j < |ws|
    requires ws[j] <= ws[i] && ds[j] <= ds[i]
    ensures Dot(Swap(ws, i, j), ds) <= Dot(ws, ds)
  {
    if i == j {
      assert Swap(ws, i, j) == ws;
    } else {
      DotUpdate(ws, ds, i, ws[j]);
      DotUpdate(ws[i := ws[j]], ds, j, ws[i]);
      Cross(ws[i], ws[j], ds[i], ds[j]);
    }
  }

  /** What is left of the weights without the one at k. */
  function Without(ws: seq<nat>, k: nat): (r: seq<nat>)
    requires k < |ws|
  {
    ws[..k] + ws[k + 1..]
  }

  lemma WithoutIs(ws: seq<nat>, k: nat)
    requires k < |ws|
    ensures multiset(Without(ws, k)) == multiset(ws) - multiset{ws[k]}
  {
    assert ws == ws[..k] + [ws[k]] + ws[k + 1..];
  }

  /** Swaps a least weight into place k. */
  lemma BringFirst(ws: seq<nat>, ds: seq<nat>, k: nat, a: nat) returns (r: seq<nat>)
    requires |ws| == |ds| && k < |ws| && forall i | 0 <= i < |ds| :: ds[i] <= ds[k]
    requires a in ws && forall i | 0 <= i < |ws| :: a <= ws[i]
    ensures |r| == |ws| && multiset(r) == multiset(ws) && r[k] == a && Dot(r, ds) <= Dot(ws, ds)
  {
    var p :| 0 <= p < |ws| && ws[p] == a;
    SwapDown(ws, ds, k, p);
    r := Swap(ws, k, p);
  }

  /** Swaps the next least weight behind it. */
  lemma BringSecond(ws: seq<nat>, ds: seq<nat>, k: nat, b: nat) returns (r: seq<nat>)
    requires |ws| == |ds| && k + 1 < |ws| && forall i | 0 <= i < |ds| :: ds[i] <= ds[k + 1]
    requires b in Without(ws, k) && forall x | x in Without(ws, k) :: b <= x
    ensures |r| == |ws| && multiset(r) == multiset(ws) && r[k] == ws[k] && r[k + 1] == b && Dot(r, ds) <= Dot(ws, ds)
  {
    var rest := Without(ws, k);
    var q :| 0 <= q < |rest| && rest[q] == b;
    var j := if q < k then q else q + 1;
    assert ws[j] == b && rest[k] == ws[k + 1] && rest[k] in rest;
    SwapDown(ws, ds, k + 1, j);
    r := Swap(ws, k + 1, j);
  }

  /** The weights rearranged so that the two least stand at k and k + 1, where the tree is
    * deepest. */
  lemma BringDown(ws: seq<nat>, ds: seq<nat>, k: nat, a: nat, b: nat) returns (r: seq<nat>)
    requires |ws| == |ds| && k + 1 < |ws| && ds[k] == ds[k + 1] && forall i | 0 <= i < |ds| :: ds[i] <= ds[k]
    requires a in ws && b in multiset(ws) - multiset{a}
    requires forall i | 0 <= i < |ws| :: a <= ws[i]
    requires forall x | x in multiset(ws) - multiset{a} :: b <= x
    ensures |r| == |ws| && multiset(r) == multiset(ws) && r[k] == a && r[k + 1] == b && Dot(r, ds) <= Dot(ws, ds)
  {
    var s := BringFirst(ws, ds, k, a);
    WithoutIs(s, k);
    assert forall x :: x in Without(s, k) <==> x in multiset(Without(s, k));
    r := BringSecond(s, ds, k, b);
  }

  // ---- joining the deepest pair ----

  function Height(t: Tree): (h: nat)
    ensures h == 0 <==> t.Leaf?
  {
    match t
    case Leaf(_, _) => 0
    case Node(left, right, _) => 1 + Max(Height(left), Height(right))
  }

  /** Where the left one of two deepest sibling leaves stands. */
  function DeepestPair(t: Tree): (k: nat)
    requires t.Node?
    ensures k + 1 < |Weights(t)|
  {
    var l, r := t.left, t.right;
    if Height(t) == 1 then 0
    else if Height(l) >= Height(r) then DeepestPair(l)
    else |Weights(l)| + DeepestPair(r)
  }

  lemma {:induction false} DepthsBelowHeight(t: Tree, depth: nat)
    ensures forall i | 0 <= i < |Depths(t, depth)| :: Depths(t, depth)[i] <= depth + Height(t)
  {
    if t.Node? {
      DepthsBelowHeight(t.left, depth + 1);
      DepthsBelowHeight(t.right, depth + 1);
    }
  }

  lemma {:induction false} DeepestPairIsDeepest(t: Tree, depth: nat)
    requires t.Node?
    ensures Depths(t, depth)[DeepestPair(t)] == Depths(t, depth)[DeepestPair(t) + 1] == depth + Height(t)
  {
    if Height(t) == 1 {
      PairOfTwo(t, depth);
      hide *;
    } else {
      var u := if Height(t.left) >= Height(t.right) then t.left else t.right;
      PairOfHigher(t, depth);
      hide *;
      DeepestPairIsDeepest(u, depth + 1);
    }
  }

  lemma PairOfTwo(t: Tree, depth: nat)
    requires t.Node? && Height(t) == 1
    ensures Depths(t, depth)[DeepestPair(t)] == Depths(t, depth)[DeepestPair(t) + 1] == depth + 1
  {
    assert Depths(t.left, depth + 1) == [depth + 1] && Depths(t.right, depth + 1) == [depth + 1];
    hide Height;
  }

  /** The deepest pair of a tree is that of its higher half. */
  lemma PairOfHigher(t: Tree, depth: nat)
    requires t.Node? && Height(t) != 1
    ensures var u := if Height(t.left) >= Height(t.right) then t.left else t.right;
      u.Node? && Height(t) == 1 + Height(u)
      && Depths(t, depth)[DeepestPair(t)] == Depths(u, depth + 1)[DeepestPair(u)]
      && Depths(t, depth)[DeepestPair(t) + 1] == Depths(u, depth + 1)[DeepestPair(u) + 1]
  {
    var l, r := t.left, t.right;
    DepthsOfNode(t, depth);
    HigherHalf(t);
    hide *;
    if Height(l) >= Height(r) {
      InConcat(Depths(l, depth + 1), Depths(r, depth + 1), DeepestPair(l), 0);
    } else {
      InConcat(Depths(l, depth + 1), Depths(r, depth + 1), 0, DeepestPair(r));
    }
  }

  lemma DepthsOfNode(t: Tree, depth: nat)
    requires t.Node?
    ensures Depths(t, depth) == Depths(t.left, depth + 1) + Depths(t.right, depth + 1)
  {
  }

  lemma HigherHalf(t: Tree)
    requires t.Node? && Height(t) != 1
    ensures var l, r := t.left, t.right; var u := if Height(l) >= Height(r) then l else r;
      u.Node? && Height(t) == 1 + Height(u)
      && DeepestPair(t) == if Height(l) >= Height(r) then DeepestPair(l) else |Weights(l)| + DeepestPair(r)
  {
  }

  /** Neighbours within either part of a sequence. */
  lemma InConcat(a: seq<nat>, b: seq<nat>, i: nat, j: nat)
    ensures i + 1 < |a| ==> (a + b)[i] == a[i] && (a + b)[i + 1] == a[i + 1]
    ensures j + 1 < |b| ==> (a + b)[|a| + j] == b[j] && (a + b)[|a| + j + 1] == b[j + 1]
  {
  }

  /** The same shape with other weights. */
  function Relabel(t: Tree, ws: seq<nat>): (r: Tree)
    requires |ws| == |Weights(t)|
    ensures Weights(r) == ws && (forall depth :: Depths(r, depth) == Depths(t, depth)) && Height(r) == Height(t)
    ensures r.Node? == t.Node?
  {
    match t
    case Leaf(s, _) => Leaf(s, ws[0])
    case Node(left, right, w) =>
      var n := |Weights(left)|;
      Node(Relabel(left, ws[..n]), Relabel(right, ws[n..]), w)
  }

  /** The deepest pair joined into one leaf. */
  function Collapse(t: Tree): Tree
    requires t.Node?
  {
    var l, r := t.left, t.right;
    if Height(t) == 1 then Leaf(0, Total(Weights(t)))
    else if Height(l) >= Height(r) then Node(Collapse(l), r, t.occurrence)
    else Node(l, Collapse(r), t.occurrence)
  }

  /** The weights with those at k and k + 1 added up. */
  function JoinAt(ws: seq<nat>, k: nat): seq<nat>
    requires k + 1 < |ws|
  {
    ws[..k] + [ws[k] + ws[k + 1]] + ws[k + 2..]
  }

  lemma JoinInConcat(a: seq<nat>, b: seq<nat>, k: nat)
    ensures k + 1 < |a| ==> JoinAt(a + b, k) == JoinAt(a, k) + b
    ensures k + 1 < |b| ==> JoinAt(a + b, |a| + k) == a + JoinAt(b, k)
  {
  }

  /** Two weights of a collection replaced by their sum. */
  function Merge(ws: multiset<nat>, a: nat, b: nat): multiset<nat> {
    var sum: nat := a + b;
    ws - multiset{a, b} + multiset{sum}
  }

  lemma JoinIsMerge(ws: seq<nat>, k: nat)
    requires k + 1 < |ws|
    ensures multiset(JoinAt(ws, k)) == Merge(multiset(ws), ws[k], ws[k + 1])
  {
    var a, b := ws[..k], ws[k + 2..];
    assert ws == a + [ws[k], ws[k + 1]] + b;
    JoinedApart(multiset(a), multiset(b), ws[k], ws[k + 1]);
  }

  lemma JoinedApart(a: multiset<nat>, b: multiset<nat>, x: nat, y: nat)
    ensures a + multiset{x + y} + b == Merge(a + multiset{x, y} + b, x, y)
  {
    assert a + multiset{x, y} + b - multiset{x, y} == a + b;
  }

  lemma CostOfLeaf(t: Tree)
    requires t.Leaf?
    ensures Cost(t) == 0
  {
    var ws, ds := Weights(t), Depths(t, 0);
    assert Dot(ws[1..], ds[1..]) == 0;
    assert Dot(ws, ds) == ws[0] * ds[0];
  }

  /** What joining the deepest pair of a tree saves. */
  ghost predicate Saves(t: Tree)
    requires t.Node?
  {
    var ws, k := Weights(t), DeepestPair(t);
    && Weights(Collapse(t)) == JoinAt(ws, k)
    && Total(Weights(Collapse(t))) == Total(ws)
    && Cost(t) == Cost(Collapse(t)) + ws[k] + ws[k + 1]
  }

  /** Joining the deepest pair saves exactly its weight. */
  lemma {:induction false} CollapseCost(t: Tree)
    requires t.Node?
    ensures Saves(t)
  {
    hide Saves;
    var l, r := t.left, t.right;
    if Height(t) == 1 {
      LeavesSave(t);
    } else if Height(l) >= Height(r) {
      CollapseCost(l);
      LeftSaves(t);
    } else {
      CollapseCost(r);
      RightSaves(t);
    }
  }

  lemma LeavesSave(t: Tree)
    requires t.Node? && Height(t) == 1
    ensures Saves(t)
  {
    var l, r := t.left, t.right;
    CostOfNode(t);
    TotalConcat(Weights(l), Weights(r));
    assert Weights(t) == [l.occurrence] + [r.occurrence];
    CostOfLeaf(l);
    CostOfLeaf(r);
    CostOfLeaf(Collapse(t));
  }

  /** Collapsing goes down into one half. */
  lemma InHalf(t: Tree)
    requires t.Node? && Height(t) > 1
    ensures Weights(t) == Weights(t.left) + Weights(t.right)
    ensures Height(t.left) >= Height(t.right) ==> t.left.Node? && DeepestPair(t) == DeepestPair(t.left)
    ensures Height(t.left) >= Height(t.right) ==> Weights(Collapse(t)) == Weights(Collapse(t.left)) + Weights(t.right)
    ensures Height(t.left) >= Height(t.right) ==> Collapse(t) == Node(Collapse(t.left), t.right, t.occurrence)
    ensures Height(t.left) < Height(t.right) ==> t.right.Node? && DeepestPair(t) == |Weights(t.left)| + DeepestPair(t.right)
    ensures Height(t.left) < Height(t.right) ==> Weights(Collapse(t)) == Weights(t.left) + Weights(Collapse(t.right))
    ensures Height(t.left) < Height(t.right) ==> Collapse(t) == Node(t.left, Collapse(t.right), t.occurrence)
  {
  }

  lemma LeftSaves(t: Tree)
    requires t.Node? && Height(t) > 1 && Height(t.left) >= Height(t.right) && t.left.Node? && Saves(t.left)
    ensures Saves(t)
  {
    hide Cost, Total, Height, Weights, DeepestPair, Collapse, JoinAt;
    InHalf(t);
    var a, b, c := Weights(t.left), Weights(t.right), Weights(Collapse(t.left));
    CostOfNode(t);
    CostOfNode(Collapse(t));
    TotalConcat(a, b);
    TotalConcat(c, b);
    JoinInConcat(a, b, DeepestPair(t.left));
  }

  lemma RightSaves(t: Tree)
    requires t.Node? && Height(t) > 1 && Height(t.left) < Height(t.right) && t.right.Node? && Saves(t.right)
    ensures Saves(t)
  {
    hide Cost, Total, Height, Weights, DeepestPair, Collapse, JoinAt;
    InHalf(t);
    var a, b, c := Weights(t.left), Weights(t.right), Weights(Collapse(t.right));
    CostOfNode(t);
    CostOfNode(Collapse(t));
    TotalConcat(a, b);
    TotalConcat(a, c);
    JoinInConcat(a, b, DeepestPair(t.right));
  }

  /** The step behind Huffman's algorithm: any tree can be turned, at no extra cost, into a
    * tree in which the two least weights are one leaf, plus that one merge. */
  lemma Reduce(t: Tree, a: nat, b: nat) returns (u: Tree)
    requires t.Node? && a in Weights(t) && b in multiset(Weights(t)) - multiset{a}
    requires forall i | 0 <= i < |Weights(t)| :: a <= Weights(t)[i]
    requires forall x | x in multiset(Weights(t)) - multiset{a} :: b <= x
    ensures multiset(Weights(u)) == Merge(multiset(Weights(t)), a, b)
    ensures Cost(u) + a + b <= Cost(t)
  {
    hide Weights, Depths, Dot, Merge, JoinAt, Collapse, DeepestPair, Height, Cost;
    var s := Rearrange(t, a, b);
    var k := DeepestPair(s);
    u := Collapse(s);
    CollapseCost(s);
    JoinIsMerge(Weights(s), k);
  }

  /** A tree of the same shape, not dearer, with the two least weights where it is deepest. */
  lemma Rearrange(t: Tree, a: nat, b: nat) returns (s: Tree)
    requires t.Node? && a in Weights(t) && b in multiset(Weights(t)) - multiset{a}
    requires forall i | 0 <= i < |Weights(t)| :: a <= Weights(t)[i]
    requires forall x | x in multiset(Weights(t)) - multiset{a} :: b <= x
    ensures s.Node? && multiset(Weights(s)) == multiset(Weights(t)) && Cost(s) <= Cost(t)
    ensures Weights(s)[DeepestPair(s)] == a && Weights(s)[DeepestPair(s) + 1] == b
  {
    hide Weights, Depths, Dot, DeepestPair, Height, Relabel;
    DeepestPairIsDeepest(t, 0);
    DepthsBelowHeight(t, 0);
    var ws := BringDown(Weights(t), Depths(t, 0), DeepestPair(t), a, b);
    s := Relabel(t, ws);
    SamePair(t, ws);
  }

  lemma {:induction false} SamePair(t: Tree, ws: seq<nat>)
    requires t.Node? && |ws| == |Weights(t)|
    ensures DeepestPair(Relabel(t, ws)) == DeepestPair(t)
  {
    var n := |Weights(t.left)|;
    if Height(t) > 1 {
      if Height(t.left) >= Height(t.right) { SamePair(t.left, ws[..n]); } else { SamePair(t.right, ws[n..]); }
    }
  }
}
