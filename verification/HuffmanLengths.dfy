// What HuffmanCodeLengths promises: a complete code of least cost whose depth is bounded by
// the Fibonacci numbers.
module HuffmanLengths {
  import opened Arith
  import opened HuffmanForest
  import opened HuffmanOptimality
  import opened HuffmanDepth

  function UsedCount(f: seq<nat>): nat {
    if f == [] then 0 else UsedCount(f[..|f| - 1]) + (if f[|f| - 1] == 0 then 0 else 1)
  }

  // A table of 32-bit counts.
  ghost predicate Words(f: seq<nat>) {
    forall s | 0 <= s < |f| :: f[s] < TWO_32
  }

  // No wrap can change the shape of the tree: the counts sum below 2^33, or at most three are used.
  ghost predicate WrapSafe(f: seq<nat>) {
    Words(f) && (Total(f) < 2 * TWO_32 || UsedCount(f) <= 3)
  }

  // The tree has at most 255 levels below its root, so every depth fits in the 8-bit lengths.
  ghost predicate Shallow(f: seq<nat>) {
    Words(f) && (LeafQueue(f) != [] ==> Height(Greedy(LeafQueue(f))) <= 255)
  }

  lemma {:induction false} QueueSize(f: seq<nat>)
    ensures |LeafQueue(f)| == UsedCount(f)
  {
    if f != [] {
      QueueSize(f[..|f| - 1]);
    }
  }

  lemma {:induction false} UsedBelowSize(f: seq<nat>)
    ensures UsedCount(f) <= |f|
  {
    if f != [] {
      UsedBelowSize(f[..|f| - 1]);
    }
  }

  lemma {:induction false} UsedInTree(f: seq<nat>, s: nat)
    requires s < |f| && f[s] > 0
    ensures UsedSum(f, (u: nat) => if u == s then 1 else 0) >= 1
  {
    if s < |f| - 1 {
      UsedInTree(f[..|f| - 1], s);
    }
  }

  lemma {:induction false} SumFindsSym(t: Tree, s: nat)
    requires TreeSum(t, (u: nat) => if u == s then 1 else 0) >= 1
    ensures s in Syms(t)
  {
    match t
    case Leaf(_, _) =>
    case Node(_, _, l, r) =>
      if TreeSum(l, (u: nat) => if u == s then 1 else 0) >= 1 {
        SumFindsSym(l, s);
      } else {
        SumFindsSym(r, s);
      }
  }

  // The tree behind a table with at least two used symbols.
  function Root(freq: seq<nat>): Tree
    requires UsedCount(Coded(freq)) >= 2
  {
    QueueSize(Coded(freq));
    Greedy(LeafQueue(Coded(freq)))
  }

  lemma RootSum(freq: seq<nat>, h: nat -> nat)
    requires UsedCount(Coded(freq)) >= 2
    ensures TreeSum(Root(freq), h) == UsedSum(Coded(freq), h)
  {
    QueueSize(Coded(freq));
    GreedySum(LeafQueue(Coded(freq)), h);
    LeafQueueSum(Coded(freq), h);
  }

  lemma RootShape(freq: seq<nat>)
    requires Words(Coded(freq)) && UsedCount(Coded(freq)) >= 2
    ensures Root(freq).Node? && Proper(Root(freq), Coded(freq))
    ensures DepthsAgree(Root(freq), 0, CodeLengths(freq))
    ensures forall s | 0 <= s < |CodeLengths(freq)| && s !in Syms(Root(freq)) :: CodeLengths(freq)[s] == 0
  {
    var f := Coded(freq);
    QueueSize(f);
    LeafQueueHolds(f);
    GreedyProper(LeafQueue(f), f);
    GreedyIsNode(LeafQueue(f));
    AssignedCorrect(Root(freq), 0, Zeros(|f|), f);
  }

  lemma RootSyms(freq: seq<nat>, s: nat)
    requires Words(Coded(freq)) && UsedCount(Coded(freq)) >= 2 && s < |Coded(freq)|
    ensures s in Syms(Root(freq)) <==> Coded(freq)[s] > 0
  {
    RootShape(freq);
    SymInSyms(Root(freq), Coded(freq));
    if Coded(freq)[s] > 0 {
      UsedInTree(Coded(freq), s);
      RootSum(freq, (u: nat) => if u == s then 1 else 0);
      SumFindsSym(Root(freq), s);
    }
  }

  lemma RootWeight(freq: seq<nat>)
    requires WrapSafe(Coded(freq)) && UsedCount(Coded(freq)) >= 2
    ensures Weight(Root(freq)) == Total(Coded(freq)) && FibTree(Root(freq))
  {
    var f := Coded(freq);
    var q := LeafQueue(f);
    QueueSize(f);
    LeafQueueHolds(f);
    LeavesAreFib(q, f);
    RootShape(freq);
    RootSum(freq, FreqTerm(f));
    LeafQueueSum(f, FreqTerm(f));
    UsedSumOfFreq(f);
    TreeWeightIsSum(Root(freq), f);
    GreedyFib(q, f, 0);
  }

  lemma LightTreeIsLow(t: Tree, h: nat, n: nat)
    requires FibTree(t) && h == Height(t) && Weight(t) < 2 * TWO_32 && n == 2
    ensures h <= 47
  {
    if h >= 48 {
      FibAt50(n);
      FibMono(n + 48, h + 2);
    }
  }

  function One(): nat -> nat {
    (s: nat) => 1
  }

  lemma {:induction false} UsedSumOne(f: seq<nat>)
    ensures UsedSum(f, One()) == UsedCount(f)
  {
    if f != [] {
      UsedSumOne(f[..|f| - 1]);
    }
  }

  lemma {:induction false} HeightBelowLeaves(t: Tree)
    ensures Height(t) + 1 <= TreeSum(t, One())
  {
    match t
    case Leaf(_, _) =>
    case Node(_, _, l, r) =>
      HeightBelowLeaves(l);
      HeightBelowLeaves(r);
  }

  lemma RootBelowUsed(freq: seq<nat>)
    requires UsedCount(Coded(freq)) >= 2
    ensures Height(Root(freq)) < UsedCount(Coded(freq))
  {
    RootSum(freq, One());
    UsedSumOne(Coded(freq));
    HeightBelowLeaves(Root(freq));
  }

  lemma RootLow(freq: seq<nat>)
    requires WrapSafe(Coded(freq)) && UsedCount(Coded(freq)) >= 2
    ensures Height(Root(freq)) <= 47
  {
    if UsedCount(Coded(freq)) <= 3 {
      RootBelowUsed(freq);
    } else {
      RootWeight(freq);
      LightTreeIsLow(Root(freq), Height(Root(freq)), 2);
    }
  }

  // A sum below 2^33 or at most 256 used symbols keep the tree low.
  lemma ShallowTables(freq: seq<nat>)
    requires WrapSafe(Coded(freq)) || (Words(Coded(freq)) && UsedCount(Coded(freq)) <= 256)
    ensures Shallow(Coded(freq))
  {
    var f := Coded(freq);
    QueueSize(f);
    if UsedCount(f) >= 2 {
      if UsedCount(f) <= 256 {
        RootBelowUsed(freq);
      } else {
        RootLow(freq);
      }
    } else if UsedCount(f) == 1 {
      LeafQueueHolds(f);
    }
  }

  lemma ShallowRoot(freq: seq<nat>)
    requires Words(Coded(freq)) && UsedCount(Coded(freq)) >= 2
    ensures Shallow(Coded(freq)) <==> Height(Root(freq)) <= 255
  {
    QueueSize(Coded(freq));
  }

  // No length exceeds the tree's height, and some used symbol's length is the height.
  lemma RootHeight(freq: seq<nat>) returns (deepest: nat)
    requires Shallow(Coded(freq)) && UsedCount(Coded(freq)) >= 2
    ensures forall s | 0 <= s < |CodeLengths(freq)| :: CodeLengths(freq)[s] <= Height(Root(freq))
    ensures deepest < |CodeLengths(freq)| && CodeLengths(freq)[deepest] == Height(Root(freq)) > 0
  {
    RootShape(freq);
    ShallowRoot(freq);
    deepest := HeightIsListed(Root(freq), 0, CodeLengths(freq), Coded(freq));
  }

  lemma {:induction false} GreedyIsNode(q: seq<Tree>)
    requires |q| >= 2
    ensures Greedy(q).Node?
    decreases |q|
  {
    if |q| == 2 {
      var m := MergeStep(q);
      assert q[2..] == [];
      assert m == [Merge(q[0], q[1])];
    } else {
      GreedyIsNode(MergeStep(q));
    }
  }

  lemma LeafDepthPositive(t: Tree, depth: nat, len: seq<nat>, f: seq<nat>)
    requires t.Node? && Proper(t, f) && |len| == |f| && DepthsAgree(t, depth, len) && depth + Height(t) < TWO_8
    ensures forall s | s in Syms(t) :: s < |len| && len[s] > depth
  {
    var a := HeightIsListed(t.left, depth + 1, len, f);
    var b := HeightIsListed(t.right, depth + 1, len, f);
  }

  // Exactly the used symbols get a code, each of at least one bit.
  lemma UsedIffCoded(freq: seq<nat>, s: nat)
    requires Shallow(Coded(freq)) && s < |Coded(freq)|
    ensures CodeLengths(freq)[s] > 0 <==> Coded(freq)[s] > 0
  {
    var f := Coded(freq);
    if UsedCount(f) >= 2 {
      QueueSize(f);
      RootShape(freq);
      RootSyms(freq, s);
      ShallowRoot(freq);
      LeafDepthPositive(Root(freq), 0, CodeLengths(freq), f);
    } else {
      FewUsed(f, s);
    }
  }

  lemma FewUsed(f: seq<nat>, s: nat)
    requires UsedCount(f) <= 1 && s < |f| && forall u | 0 <= u < |f| :: f[u] < TWO_32
    ensures |LeafQueue(f)| == 0 ==> f[s] == 0
    ensures |LeafQueue(f)| == 1 ==> LeafQueue(f)[0].sym < |f| && (LeafQueue(f)[0].sym == s <==> f[s] > 0)
    ensures |LeafQueue(f)| <= 1
  {
    var q := LeafQueue(f);
    var h := (u: nat) => if u == s then 1 else 0;
    QueueSize(f);
    LeafQueueHolds(f);
    LeafQueueSum(f, h);
    if f[s] > 0 {
      UsedInTree(f, s);
    }
    if |q| == 1 {
      assert q[1..] == [];
      assert Proper(q[0], f);
    }
  }

  // The table in the source's terms: a 16-bit number of entries; one bit for a single used symbol; for
  // more, the depths in the tree that joining the two least, ties by symbol, builds.
  lemma TableMeans(freq: seq<nat>)
    requires Words(Coded(freq))
    ensures |CodeLengths(freq)| == |freq| % 0x1_0000
    ensures var f, len := freq[..|freq| % 0x1_0000], CodeLengths(freq);
      && (UsedCount(f) == 1 ==> forall s | 0 <= s < |len| :: len[s] == if f[s] > 0 then 1 else 0)
      && (UsedCount(f) >= 2 ==> forall root | Builds(LeavesOf(f), UsedCount(f), root) :: DepthsAgree(root, 0, len))
  {
    hide Greedy, LeafQueue, Builds, UsedCount, DepthsAgree;
    var f := Coded(freq);
    QueueSize(f);
    LeafQueueHolds(f);
    QueueOfLeaves(f);
    if UsedCount(f) == 1 {
      forall s | 0 <= s < |f|
        ensures CodeLengths(freq)[s] == if f[s] > 0 then 1 else 0
      {
        FewUsed(f, s);
      }
    } else if UsedCount(f) >= 2 {
      RootShape(freq);
      forall root | Builds(LeavesOf(f), UsedCount(f), root)
        ensures DepthsAgree(root, 0, CodeLengths(freq))
      {
        AnyHeap(LeafQueue(f), f, root);
      }
    }
  }

  lemma FullTable(t: Tree, f: seq<nat>, len: seq<nat>, cap: nat)
    requires Proper(t, f) && |len| == |f| && DepthsAgree(t, 0, len) && Height(t) <= 255 && Height(t) <= cap
    ensures TreeSum(t, KraftTerm(len, cap)) == Pow2(cap)
  {
    TreeKraftIsFull(t, 0, f, len, cap);
  }

  // Kraft's sum is exactly one: the code is complete.
  lemma KraftEquality(freq: seq<nat>, cap: nat)
    requires Shallow(Coded(freq)) && UsedCount(Coded(freq)) >= 2
    requires forall s | 0 <= s < |CodeLengths(freq)| :: CodeLengths(freq)[s] <= cap
    ensures Kraft(Coded(freq), CodeLengths(freq), cap) == Pow2(cap)
  {
    var d := RootHeight(freq);
    RootSum(freq, KraftTerm(CodeLengths(freq), cap));
    RootShape(freq);
    ShallowRoot(freq);
    FullTable(Root(freq), Coded(freq), CodeLengths(freq), cap);
  }

  // Stored depths never exceed the real ones, and fall short of them from 256 on.
  lemma {:induction false} StoredKraft(t: Tree, depth: nat, f: seq<nat>, len: seq<nat>, cap: nat)
    requires Proper(t, f) && |len| == |f| && DepthsAgree(t, depth, len) && depth + Height(t) <= cap
    ensures TreeSum(t, KraftTerm(len, cap)) >= Pow2(cap - depth)
    ensures depth + Height(t) >= TWO_8 ==> TreeSum(t, KraftTerm(len, cap)) > Pow2(cap - depth)
  {
    match t
    case Leaf(_, s) =>
      StoredBelow(depth, cap);
    case Node(_, _, l, r) =>
      StoredKraft(l, depth + 1, f, len, cap);
      StoredKraft(r, depth + 1, f, len, cap);
  }

  lemma StoredBelow(depth: nat, cap: nat)
    requires depth <= cap
    ensures depth % TWO_8 <= depth && Pow2(cap - depth % TWO_8) >= Pow2(cap - depth)
    ensures depth >= TWO_8 ==> Pow2(cap - depth % TWO_8) > Pow2(cap - depth)
  {
    Pow2Mono(cap - depth, cap - depth % TWO_8);
    if depth >= TWO_8 {
      Pow2Mono(cap - depth + 1, cap - depth % TWO_8);
    }
  }

  lemma {:induction false} KraftScale(f: seq<nat>, len: seq<nat>, cap: nat, more: nat)
    requires forall s | 0 <= s < |len| :: len[s] <= cap
    ensures Kraft(f, len, cap + more) == Pow2(more) * Kraft(f, len, cap)
    decreases |f|
  {
    if f != [] {
      var s := |f| - 1;
      KraftScale(f[..s], len, cap, more);
      if s < |len| {
        Pow2Add(more, cap - len[s]);
      }
      Spread(Pow2(more), Kraft(f[..s], len, cap), if f[s] == 0 then 0 else KraftTerm(len, cap)(s));
    }
  }

  lemma Spread(a: nat, x: nat, y: nat)
    ensures a * (x + y) == a * x + a * y
  {
  }

  lemma Cancel(a: nat, x: nat, y: nat)
    requires a >= 1 && a * x > a * y
    ensures x > y
  {
    assert a * (x - y) > 0;
  }

  // The code is complete exactly when the tree is shallow: an 8-bit length that has lost a depth
  // of 256 or more makes Kraft's sum too large.
  lemma CompleteIffShallow(freq: seq<nat>, cap: nat)
    requires Words(Coded(freq)) && UsedCount(Coded(freq)) >= 2
    requires forall s | 0 <= s < |CodeLengths(freq)| :: CodeLengths(freq)[s] <= cap
    ensures Kraft(Coded(freq), CodeLengths(freq), cap) == Pow2(cap) <==> Shallow(Coded(freq))
  {
    hide Height, Assigned, Greedy, LeafQueue, CodeLengths, UsedSum, TreeSum, Pow2, Root, Proper, DepthsAgree;
    var f, len := Coded(freq), CodeLengths(freq);
    ShallowRoot(freq);
    if Shallow(f) {
      KraftEquality(freq, cap);
    } else {
      var more := Height(Root(freq));
      RootShape(freq);
      RootSum(freq, KraftTerm(len, cap + more));
      StoredKraft(Root(freq), 0, f, len, cap + more);
      KraftScale(f, len, cap, more);
      Pow2Add(more, cap);
      Cancel(Pow2(more), Kraft(f, len, cap), Pow2(cap));
    }
  }

  // No prefix code on the used symbols is cheaper.
  lemma Optimality(freq: seq<nat>)
    requires WrapSafe(Coded(freq)) && UsedCount(Coded(freq)) >= 2
    ensures Optimal(Coded(freq), CodeLengths(freq))
  {
    var f, len := Coded(freq), CodeLengths(freq);
    ShallowTables(freq);
    var d := RootHeight(freq);
    KraftEquality(freq, Height(Root(freq)));
    assert Realisable(f, len, Height(Root(freq)));
    forall alt, cap | Realisable(f, alt, cap)
      ensures CodeCost(f, len) <= CodeCost(f, alt)
    {
      RootCost(freq);
      QueueSize(f);
      TableOptimality(f, alt, cap);
    }
  }

  // The bits spent on the message are the cost of the tree.
  lemma RootCost(freq: seq<nat>)
    requires Shallow(Coded(freq)) && UsedCount(Coded(freq)) >= 2
    ensures CodeCost(Coded(freq), CodeLengths(freq)) == Cost(Root(freq))
  {
    RootShape(freq);
    ShallowRoot(freq);
    RootSum(freq, CostTerm(Coded(freq), CodeLengths(freq)));
    TreeCostIsSum(Root(freq), 0, Coded(freq), CodeLengths(freq));
  }

  lemma TableOptimality(f: seq<nat>, alt: seq<nat>, cap: nat)
    requires WrapSafe(f) && |LeafQueue(f)| >= 2 && Realisable(f, alt, cap)
    ensures Cost(Greedy(LeafQueue(f))) <= CodeCost(f, alt)
  {
    hide Greedy, Cost, KraftSeq, Dot, UsedSum, LeafQueue, Pow2;
    var q := LeafQueue(f);
    QueueSize(f);
    LeafQueueHolds(f);
    LeavesAreFib(q, f);
    forall i | 0 <= i < |q|
      ensures q[i].sym < |alt| && alt[q[i].sym] <= cap
    {
      assert Proper(q[i], f);
    }
    LeafSums(q, f, alt, cap);
    LeafQueueSum(f, CostTerm(f, alt));
    LeafQueueSum(f, KraftTerm(alt, cap));
    LeafQueueSum(f, FreqTerm(f));
    UsedSumOfFreq(f);
    LeafForestCost(q);
    ForestOptimal(q, LeafLengths(q, alt), cap, f);
  }

  // A code of length L needs a total count of at least Fib(L + 2).
  lemma DepthBound(freq: seq<nat>, s: nat)
    requires WrapSafe(Coded(freq)) && UsedCount(Coded(freq)) >= 2 && s < |CodeLengths(freq)|
    ensures CodeLengths(freq)[s] > 0 ==> Fib(CodeLengths(freq)[s] + 2) <= Total(Coded(freq))
    ensures CodeLengths(freq)[s] <= 47
  {
    ShallowTables(freq);
    var d := RootHeight(freq);
    RootWeight(freq);
    RootLow(freq);
    FibMono(CodeLengths(freq)[s] + 2, Height(Root(freq)) + 2);
  }

  // Below Fib(34) counts no code is longer than 31 bits.
  lemma ShortCodes(freq: seq<nat>, s: nat)
    requires Words(Coded(freq)) && Total(Coded(freq)) < FIB_34 && s < |CodeLengths(freq)|
    ensures CodeLengths(freq)[s] <= 31
  {
    hide Fib, UsedCount, Assigned, Greedy, LeafQueue, Total;
    QueueSize(Coded(freq));
    var l, n := CodeLengths(freq)[s], 2;
    if UsedCount(Coded(freq)) < 2 {
      FewCodesAreShort(freq, s);
    } else if l >= 32 {
      DepthBound(freq, s);
      FibAt34(n);
      FibMono(n + 32, l + 2);
    }
  }

  // Whatever the counts, k used symbols get codes of fewer than k bits (or one bit).
  lemma FewCodesAreShort(freq: seq<nat>, s: nat)
    requires Words(Coded(freq)) && UsedCount(Coded(freq)) <= 256 && s < |CodeLengths(freq)|
    ensures CodeLengths(freq)[s] <= 1 || CodeLengths(freq)[s] < UsedCount(Coded(freq))
  {
    QueueSize(Coded(freq));
    if UsedCount(Coded(freq)) >= 2 {
      ShallowTables(freq);
      var d := RootHeight(freq);
      RootBelowUsed(freq);
    }
  }
}
