// How deep the greedy tree can get: a tree of height h weighs at least Fib(h + 2).
module HuffmanDepth {
  import opened Arith
  import opened HuffmanForest
  import opened HuffmanOptimality

  function HeavierChild(t: Tree): nat {
    match t
    case Leaf(_, _) => 0
    case Node(_, _, l, r) => if Weight(l) >= Weight(r) then Weight(l) else Weight(r)
  }

  ghost predicate FibTree(t: Tree) {
    && Weight(t) >= Fib(Height(t) + 2)
    && (t.Node? ==> FibTree(t.left) && FibTree(t.right))
  }

  // Trees are merged lightest first, so the heavier part of the latest merge is a floor:
  // everything still queued weighs at least that, and no queued tree has a heavier part.
  ghost predicate Settled(t: Tree, floor: nat) {
    FibTree(t) && HeavierChild(t) <= floor <= Weight(t)
  }

  ghost predicate FibForest(q: seq<Tree>, floor: nat) {
    forall t | t in q :: Settled(t, floor)
  }

  lemma FibStep(n: nat)
    ensures Fib(n + 2) == Fib(n + 1) + Fib(n)
  {
  }

  // h is the height of the taller of two merged trees; b outweighs a's taller child.
  lemma TallerPart(a: Tree, b: Tree, h: nat)
    requires FibTree(a) && Weight(b) >= 1 && h == Height(a)
    requires Weight(b) >= HeavierChild(a)
    ensures Weight(a) + Weight(b) >= Fib(h + 3)
  {
    FibStep(h + 1);
    if a.Node? {
      var c := if Height(a.left) >= Height(a.right) then a.left else a.right;
      assert FibTree(c) && Height(c) + 1 == h;
      assert Weight(b) >= Weight(c);
      assert Weight(c) >= Fib(Height(c) + 2) == Fib(h + 1);
    }
  }

  lemma {:induction false} Heavy(t: Tree, f: seq<nat>)
    requires Proper(t, f)
    ensures Weight(t) >= 1
  {
    if t.Node? {
      Heavy(t.left, f);
    }
  }

  lemma MergedIsFib(a: Tree, b: Tree, floor: nat, f: seq<nat>)
    requires Settled(a, floor) && Settled(b, floor) && Proper(a, f) && Proper(b, f)
    ensures FibTree(Merge(a, b))
  {
    Heavy(a, f);
    Heavy(b, f);
    if Height(a) >= Height(b) {
      TallerPart(a, b, Height(a));
    } else {
      TallerPart(b, a, Height(b));
    }
  }

  lemma MergeKeepsFib(q: seq<Tree>, f: seq<nat>, floor: nat)
    requires Queue(q, f) && |q| >= 2 && TrueWeights(q) && FibForest(q, floor)
    ensures FibForest(MergeStep(q), Weight(q[1]))
  {
    var t := Merge(q[0], q[1]);
    MergedIsFib(q[0], q[1], floor, f);
    InsertedFrom(q[2..], t);
    forall u | u in q[2..]
      ensures Settled(u, Weight(q[1]))
    {
      var i :| 0 <= i < |q[2..]| && q[2..][i] == u;
      assert q[i + 2] == u && KeyLess(q[1], q[i + 2]);
      assert Settled(q[1], floor) && Settled(u, floor);
    }
  }

  // The stored weights matter only while three trees or more are left to choose from.
  lemma {:induction false} GreedyFib(q: seq<Tree>, f: seq<nat>, floor: nat)
    requires |q| >= 1 && Queue(q, f) && FibForest(q, floor)
    requires |q| >= 3 ==> TrueWeights(q)
    requires |q| >= 4 ==> ForestSum(q, FreqTerm(f)) < 2 * TWO_32
    ensures FibTree(Greedy(q))
    decreases |q|
  {
    if |q| == 1 {
      assert Settled(q[0], floor);
    } else if |q| == 2 {
      assert q == [q[0], q[1]] && Settled(q[0], floor) && Settled(q[1], floor);
      MergedIsFib(q[0], q[1], floor, f);
      GreedyTwo(q[0], q[1]);
    } else {
      MergeKeepsQueue(q, f);
      MergeKeepsFib(q, f, floor);
      if |q| >= 4 {
        MergeKeepsTrueWeights(q, f);
      }
      GreedyFib(MergeStep(q), f, Weight(q[1]));
    }
  }

  lemma LeavesAreFib(q: seq<Tree>, f: seq<nat>)
    requires Queue(q, f) && forall i | 0 <= i < |q| :: q[i].Leaf?
    ensures TrueWeights(q) && FibForest(q, 0)
  {
    assert Fib(2) == 1;
    forall t | t in q
      ensures Settled(t, 0) && t.freq == Weight(t)
    {
      var i :| 0 <= i < |q| && q[i] == t;
      assert Proper(q[i], f);
    }
  }

  // The table lists no depth above the height, and lists the height itself.
  lemma {:induction false} HeightIsListed(t: Tree, depth: nat, len: seq<nat>, f: seq<nat>) returns (s: nat)
    requires Proper(t, f) && |len| == |f| && DepthsAgree(t, depth, len) && depth + Height(t) < TWO_8
    ensures s in Syms(t) && s < |len| && len[s] == depth + Height(t)
    ensures forall u | u in Syms(t) :: u < |len| && depth <= len[u] <= depth + Height(t)
  {
    match t
    case Leaf(_, x) =>
      s := x;
    case Node(_, _, l, r) =>
      var a := HeightIsListed(l, depth + 1, len, f);
      var b := HeightIsListed(r, depth + 1, len, f);
      s := if Height(l) >= Height(r) then a else b;
  }
}
