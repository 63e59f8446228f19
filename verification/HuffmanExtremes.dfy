// Where the limits of the coder are reached: Fibonacci counts give the deepest codes, and counts
// whose merged weights wrap lose optimality, and beyond 256 symbols even codes.
module HuffmanExtremes {
  import opened Arith
  import opened HuffmanForest
  import opened HuffmanOptimality
  import opened HuffmanLengths

  // ---- Fibonacci counts ----

  // 1, Fib(1), Fib(2), ..., Fib(depth) + extra.
  function FibCounts(depth: nat, extra: nat): (f: seq<nat>)
    requires depth >= 3
    ensures |f| == depth + 1 && f[0] == 1 && f[depth] == Fib(depth) + extra
    ensures forall i | 1 <= i < depth :: f[i] == Fib(i)
  {
    seq(depth + 1, i requires 0 <= i <= depth =>
      if i == 0 then 1 else if i < depth then Fib(i) else Fib(depth) + extra)
  }

  lemma {:induction false} FibPositive(n: nat)
    requires n >= 1
    ensures Fib(n) >= 1 && (n >= 2 ==> Fib(n + 1) > Fib(n))
  {
    if n >= 2 {
      FibPositive(n - 1);
    }
  }

  lemma CountsAscend(depth: nat, extra: nat, i: nat, j: nat)
    requires depth >= 3 && i <= j <= depth
    ensures 1 <= FibCounts(depth, extra)[i] <= FibCounts(depth, extra)[j]
    ensures i >= 1 ==> FibCounts(depth, extra)[i] >= Fib(i)
  {
    if i >= 1 {
      FibPositive(i);
      FibMono(i, j);
    } else if j >= 1 {
      FibPositive(j);
    }
  }

  lemma {:induction false} PrefixTotal(depth: nat, extra: nat, i: nat)
    requires depth >= 3 && 1 <= i <= depth
    ensures Total(FibCounts(depth, extra)[..i]) == Fib(i + 1)
  {
    var f := FibCounts(depth, extra);
    if i == 1 {
      assert f[..1][..0] == [];
      assert Total(f[..1]) == Total(f[..1][..0]) + 1;
    } else {
      PrefixTotal(depth, extra, i - 1);
      assert f[..i][..i - 1] == f[..i - 1];
    }
  }

  lemma CountsTotal(depth: nat, extra: nat)
    requires depth >= 3
    ensures Total(FibCounts(depth, extra)) == Fib(depth + 2) + extra
  {
    PrefixTotal(depth, extra, depth);
  }

  // ---- The queue of leaves ----

  function Leaves(f: seq<nat>, from: nat): (r: seq<Tree>)
    requires from <= |f|
    ensures |r| == |f| - from && forall i | 0 <= i < |r| :: r[i] == Leaf(f[from + i], from + i)
  {
    seq(|f| - from, i requires 0 <= i < |f| - from => Leaf(f[from + i], from + i))
  }

  // An ascending table queues its leaves in symbol order; unused symbols after it change nothing.
  lemma {:induction false} AscendingQueue(f: seq<nat>)
    requires forall i, j | 0 <= i <= j < |f| :: 0 < f[i] <= f[j]
    ensures LeafQueue(f) == Leaves(f, 0)
  {
    hide Insert;
    if f != [] {
      var n := |f| - 1;
      AscendingQueue(f[..n]);
      LastPlace(Leaves(f[..n], 0), Leaf(f[n], n));
      assert Leaves(f[..n], 0) + [Leaf(f[n], n)] == Leaves(f, 0);
    }
  }

  lemma LastPlace(q: seq<Tree>, t: Tree)
    requires forall i | 0 <= i < |q| :: !KeyLess(t, q[i])
    ensures Insert(q, t) == q + [t]
  {
    assert InsertPos(q, t) == |q|;
  }

  lemma {:induction false} PaddedQueue(f: seq<nat>, zeros: nat)
    ensures LeafQueue(f + Zeros(zeros)) == LeafQueue(f) && Total(f + Zeros(zeros)) == Total(f)
  {
    if zeros == 0 {
      assert f + Zeros(0) == f;
    } else {
      var g := f + Zeros(zeros);
      PaddedQueue(f, zeros - 1);
      assert g[..|g| - 1] == f + Zeros(zeros - 1) && g[|g| - 1] == 0;
    }
  }

  // ---- The merge ----

  // The tree over symbols 0..k: a chain.
  ghost predicate Chain(t: Tree, k: nat) {
    Height(t) == k && t.sym == 0 && t.freq == Fib(k + 2)
  }

  // The queue once symbols 0..k are merged.
  function Chained(f: seq<nat>, k: nat, t: Tree): (q: seq<Tree>)
    requires k + 2 <= |f|
    ensures |q| == |f| - k
  {
    [Leaf(f[k + 1], k + 1), t] + Leaves(f, k + 2)
  }

  lemma SecondPlace(q: seq<Tree>, t: Tree)
    requires |q| >= 2 && !KeyLess(t, q[0]) && KeyLess(t, q[1])
    ensures Insert(q, t) == [q[0], t] + q[1..]
  {
    assert InsertPos(q, t) == 1;
  }

  ghost predicate LeafOf(t: Tree, freq: nat) {
    t.Leaf? && t.freq == freq && t.sym > 0
  }

  lemma ChainGrows(depth: nat, extra: nat, k: nat, t: Tree, a: Tree, b: Tree)
    requires depth >= 3 && k + 3 <= depth && Chain(t, k) && Fib(depth) < TWO_32
    requires (a == t && LeafOf(b, Fib(k + 1))) || (b == t && LeafOf(a, Fib(k + 1)))
    ensures Chain(Merge(a, b), k + 1)
  {
    FibMono(k + 3, depth);
    assert Fib(k + 3) == Fib(k + 2) + Fib(k + 1);
  }

  lemma InsertChain(depth: nat, extra: nat, k: nat, t: Tree)
    requires depth >= 3 && 1 <= k && k + 2 <= depth && Chain(t, k)
    ensures Insert(Leaves(FibCounts(depth, extra), k + 1), t) == Chained(FibCounts(depth, extra), k, t)
  {
    hide Insert, Fib, Chain, KeyLess;
    var f := FibCounts(depth, extra);
    var q := Leaves(f, k + 1);
    CountsAscend(depth, extra, k + 2, k + 2);
    assert q[1] == Leaf(f[k + 2], k + 2) && q[0] == Leaf(Fib(k + 1), k + 1);
    ChainPlace(q[0], q[1], t, k);
    SecondPlace(q, t);
    assert q[1..] == Leaves(f, k + 2);
  }

  lemma ChainPlace(a: Tree, b: Tree, t: Tree, k: nat)
    requires k >= 1 && Chain(t, k) && a.freq == Fib(k + 1) && b.freq >= Fib(k + 2) && b.sym > 0
    ensures !KeyLess(t, a) && KeyLess(t, b)
  {
    hide Height;
    FibPositive(k + 1);
  }

  lemma {:induction false} ChainedHeight(depth: nat, extra: nat, k: nat, t: Tree)
    requires depth >= 3 && 1 <= k && k + 2 <= depth && Chain(t, k) && Fib(depth) < TWO_32
    ensures Height(Greedy(Chained(FibCounts(depth, extra), k, t))) == depth
    decreases depth - k
  {
    hide Fib, Greedy, Insert, Merge, Chain, Height;
    var f := FibCounts(depth, extra);
    var q := Chained(f, k, t);
    var leaf := Leaf(f[k + 1], k + 1);
    var merged := Merge(leaf, t);
    GreedyStep(q);
    assert q[2..] == Leaves(f, k + 2);
    if k + 2 < depth {
      ChainGrows(depth, extra, k, t, leaf, t);
      InsertChain(depth, extra, k + 1, merged);
      ChainedHeight(depth, extra, k + 1, merged);
    } else {
      ChainTop(leaf, t, k);
      LastTwo(Leaves(f, k + 2), merged, k + 1);
    }
  }

  lemma ChainTop(leaf: Tree, t: Tree, k: nat)
    requires leaf.Leaf? && Chain(t, k)
    ensures Height(Merge(leaf, t)) == k + 1
  {
  }

  // The last merge may wrap; only its height counts.
  lemma LastTwo(q: seq<Tree>, t: Tree, k: nat)
    requires |q| == 1 && q[0].Leaf? && Height(t) == k
    ensures Height(Greedy(Insert(q, t))) == k + 1
  {
    hide Fib, Greedy, Insert, Low32;
    assert q == [q[0]];
    EitherPlace(q[0], t);
    GreedyTwo(t, q[0]);
    GreedyTwo(q[0], t);
  }

  lemma CountsQueue(depth: nat, extra: nat)
    requires depth >= 3
    ensures LeafQueue(FibCounts(depth, extra)) == Leaves(FibCounts(depth, extra), 0)
  {
    hide Fib;
    var f := FibCounts(depth, extra);
    forall i, j | 0 <= i <= j < |f|
      ensures 0 < f[i] <= f[j]
    {
      CountsAscend(depth, extra, i, j);
    }
    AscendingQueue(f);
  }

  lemma FirstPair(depth: nat, extra: nat)
    requires depth >= 3 && Fib(depth) < TWO_32
    ensures var q := Leaves(FibCounts(depth, extra), 0);
      && q[2..] == Leaves(FibCounts(depth, extra), 2) && Chain(Merge(q[0], q[1]), 1)
  {
    hide Merge;
    var q, two := Leaves(FibCounts(depth, extra), 0), 2;
    assert Fib(two) == 1 && Fib(1) == 1;
    assert q[0] == Leaf(1, 0) && q[1] == Leaf(1, 1);
    ChainGrows(depth, extra, 0, q[0], q[0], q[1]);
  }

  // Fibonacci counts are merged into a chain.
  lemma FibHeight(depth: nat, extra: nat)
    requires depth >= 3 && Fib(depth) < TWO_32
    ensures LeafQueue(FibCounts(depth, extra)) == Leaves(FibCounts(depth, extra), 0)
    ensures Height(Greedy(LeafQueue(FibCounts(depth, extra)))) == depth
  {
    hide Fib, Greedy, Insert, Merge, Chain, Height, LeafQueue;
    var q := Leaves(FibCounts(depth, extra), 0);
    CountsQueue(depth, extra);
    FirstPair(depth, extra);
    GreedyStep(q);
    InsertChain(depth, extra, 1, Merge(q[0], q[1]));
    ChainedHeight(depth, extra, 1, Merge(q[0], q[1]));
  }

  // ---- Anywhere in the alphabet ----

  // The tree over symbols off places further on.
  function Moved(t: Tree, off: nat): (r: Tree)
    ensures r.freq == t.freq && r.sym == t.sym + off
  {
    match t
    case Leaf(w, s) => Leaf(w, s + off)
    case Node(w, s, l, r) => Node(w, s + off, Moved(l, off), Moved(r, off))
  }

  function MovedAll(q: seq<Tree>, off: nat): (r: seq<Tree>)
    ensures |r| == |q| && forall i | 0 <= i < |q| :: r[i] == Moved(q[i], off)
  {
    seq(|q|, i requires 0 <= i < |q| => Moved(q[i], off))
  }

  lemma {:induction false} MovedHeight(t: Tree, off: nat)
    ensures Height(Moved(t, off)) == Height(t)
  {
    match t
    case Leaf(_, _) =>
    case Node(_, _, l, r) =>
      MovedHeight(l, off);
      MovedHeight(r, off);
  }

  lemma {:induction false} MovedPos(q: seq<Tree>, t: Tree, off: nat)
    ensures InsertPos(MovedAll(q, off), Moved(t, off)) == InsertPos(q, t)
  {
    if q != [] && !KeyLess(t, q[0]) {
      assert MovedAll(q, off)[1..] == MovedAll(q[1..], off);
      MovedPos(q[1..], t, off);
    }
  }

  lemma MovedInsert(q: seq<Tree>, t: Tree, off: nat)
    ensures Insert(MovedAll(q, off), Moved(t, off)) == MovedAll(Insert(q, t), off)
  {
    hide InsertPos, Moved;
    MovedPos(q, t, off);
    var p, moved := InsertPos(q, t), MovedAll(q, off);
    assert moved[..p] == MovedAll(q[..p], off) && moved[p..] == MovedAll(q[p..], off);
    MovedParts(q[..p], t, q[p..], off);
  }

  lemma MovedParts(a: seq<Tree>, t: Tree, b: seq<Tree>, off: nat)
    ensures MovedAll(a + [t] + b, off) == MovedAll(a, off) + [Moved(t, off)] + MovedAll(b, off)
  {
    hide Moved;
  }

  lemma MovedMerge(a: Tree, b: Tree, off: nat)
    ensures Moved(Merge(a, b), off) == Merge(Moved(a, off), Moved(b, off))
  {
  }

  lemma {:induction false} MovedGreedy(q: seq<Tree>, off: nat)
    requires q != []
    ensures Greedy(MovedAll(q, off)) == Moved(Greedy(q), off)
    decreases |q|
  {
    hide Merge, Insert, Moved;
    if |q| > 1 {
      MovedMerge(q[0], q[1], off);
      MovedInsert(q[2..], Merge(q[0], q[1]), off);
      assert MovedAll(q, off)[2..] == MovedAll(q[2..], off);
      MovedGreedy(MergeStep(q), off);
    }
  }

  lemma {:induction false} EmptyQueue(off: nat)
    ensures LeafQueue(Zeros(off)) == [] && Total(Zeros(off)) == 0
  {
    if off > 0 {
      EmptyQueue(off - 1);
      assert Zeros(off)[..off - 1] == Zeros(off - 1);
    }
  }

  lemma {:induction false} MovedQueue(f: seq<nat>, off: nat)
    ensures LeafQueue(Zeros(off) + f) == MovedAll(LeafQueue(f), off) && Total(Zeros(off) + f) == Total(f)
  {
    hide Insert, Moved;
    if f == [] {
      EmptyQueue(off);
      assert Zeros(off) + f == Zeros(off);
    } else {
      var n, g := |f| - 1, Zeros(off) + f;
      MovedQueue(f[..n], off);
      assert g[..|g| - 1] == Zeros(off) + f[..n] && g[|g| - 1] == f[n];
      MovedLeaf(f[n], n, off);
      MovedInsert(LeafQueue(f[..n]), Leaf(f[n], n), off);
    }
  }

  lemma MovedLeaf(w: nat, s: nat, off: nat)
    ensures Moved(Leaf(w, s), off) == Leaf(w, s + off)
  {
  }

  // The depth bound is tight: for every depth up to 47 there is a table of total Fib(depth + 2), and
  // one of every larger total its last count has room for, that needs a code of that length. Its
  // symbols may start anywhere in the alphabet.
  lemma DepthIsReached(depth: nat, extra: nat, size: nat, off: nat) returns (freq: seq<nat>, s: nat)
    requires depth >= 3 && Fib(depth) + extra < TWO_32 && off + depth < size < TWO_16
    ensures |freq| == size && Words(freq) && Shallow(freq) && Coded(freq) == freq && UsedCount(freq) >= 2
    ensures Total(freq) == Fib(depth + 2) + extra
    ensures s < size && |CodeLengths(freq)| == size && CodeLengths(freq)[s] == depth
    ensures forall u | 0 <= u < size :: CodeLengths(freq)[u] <= depth
    ensures forall u | 0 <= u < size :: freq[u] > 0 ==> off <= u <= off + depth
  {
    hide Fib, Greedy, Height, LeafQueue, CodeLengths, UsedCount, Moved;
    var f := FibCounts(depth, extra);
    var moved := Zeros(off) + f;
    freq := moved + Zeros(size - depth - 1 - off);
    PaddedQueue(moved, size - depth - 1 - off);
    MovedQueue(f, off);
    FibHeight(depth, extra);
    MovedGreedy(LeafQueue(f), off);
    MovedHeight(Greedy(LeafQueue(f)), off);
    CountsTotal(depth, extra);
    CountsFit(depth, extra);
    DepthFits(depth, 2);
    assert Coded(freq) == freq;
    QueueSize(freq);
    s := RootHeight(freq);
  }

  lemma CountsFit(depth: nat, extra: nat)
    requires depth >= 3 && Fib(depth) + extra < TWO_32
    ensures Words(FibCounts(depth, extra))
  {
    hide Fib;
    var f := FibCounts(depth, extra);
    forall i | 0 <= i < |f|
      ensures f[i] < TWO_32
    {
      CountsAscend(depth, extra, i, depth);
    }
  }

  lemma DepthFits(depth: nat, n: nat)
    requires Fib(depth) < TWO_32 && n == 2
    ensures depth <= 47
  {
    if depth >= 48 {
      FibAt48(n);
      FibMono(n + 46, depth);
    }
  }

  // ---- When merged weights wrap ----

  // The greatest 32-bit count.
  const TOP: nat := TWO_32 - 1

  // a, and then n - 1 times the greatest count.
  function SpineCounts(a: nat, n: nat): (f: seq<nat>)
    requires n >= 1
    ensures |f| == n && f[0] == a && forall i | 1 <= i < n :: f[i] == TOP
  {
    seq(n, i requires 0 <= i < n => if i == 0 then a else TOP)
  }

  // Symbols 0..k merged in order, the merged tree always on the left.
  function SpineTree(f: seq<nat>, k: nat): (t: Tree)
    requires k < |f|
    ensures t.sym == 0
  {
    if k == 0 then Leaf(f[0], 0) else Merge(SpineTree(f, k - 1), Leaf(f[k], k))
  }

  lemma SpineFreq(a: nat, n: nat, k: nat)
    requires 1 <= a <= TOP && k < n
    ensures SpineTree(SpineCounts(a, n), k).freq <= TOP
  {
  }

  // No 32-bit weight exceeds the other leaves' counts, so the merged tree is always least again.
  lemma SpineFront(a: nat, n: nat, k: nat)
    requires 1 <= a <= TOP && k < n
    ensures var f := SpineCounts(a, n);
      Insert(Leaves(f, k + 1), SpineTree(f, k)) == [SpineTree(f, k)] + Leaves(f, k + 1)
  {
    hide Insert, SpineTree;
    var f := SpineCounts(a, n);
    var rest := Leaves(f, k + 1);
    SpineFreq(a, n, k);
    if rest == [] {
      InsertOnly(SpineTree(f, k));
      assert [SpineTree(f, k)] + rest == [SpineTree(f, k)];
    } else {
      FrontPlace(rest, SpineTree(f, k));
    }
  }

  lemma {:induction false} SpineMerge(a: nat, n: nat, k: nat)
    requires 1 <= a <= TOP && k < n
    ensures var f := SpineCounts(a, n); Greedy([SpineTree(f, k)] + Leaves(f, k + 1)) == SpineTree(f, n - 1)
    decreases n - k
  {
    hide Greedy, Insert, Merge;
    var f := SpineCounts(a, n);
    var rest := Leaves(f, k + 1);
    var q := [SpineTree(f, k)] + rest;
    if k + 1 == n {
      assert q == [SpineTree(f, k)];
      GreedySingle(SpineTree(f, k));
    } else {
      GreedyStep(q);
      assert q[2..] == Leaves(f, k + 2) && q[1] == Leaf(f[k + 1], k + 1);
      SpineFront(a, n, k + 1);
      SpineMerge(a, n, k + 1);
    }
  }

  function SpineDepth(k: nat, i: nat): nat
    requires i <= k
  {
    if i == 0 then k else k - i + 1
  }

  lemma AssignedMerge(a: Tree, b: Tree, depth: nat, len: seq<nat>)
    ensures Assigned(Merge(a, b), depth, len) == Assigned(b, depth + 1, Assigned(a, depth + 1, len))
  {
  }

  lemma {:induction false} SpineAssigned(f: seq<nat>, k: nat, depth: nat, len: seq<nat>)
    requires k < |f| <= |len|
    ensures forall i | 0 <= i <= k :: Assigned(SpineTree(f, k), depth, len)[i] == (depth + SpineDepth(k, i)) % TWO_8
  {
    if k > 0 {
      AssignedMerge(SpineTree(f, k - 1), Leaf(f[k], k), depth, len);
      SpineAssigned(f, k - 1, depth + 1, len);
    }
  }

  // A spine over n used symbols: symbol i gets n - i bits, as an 8-bit value.
  lemma SpineLengths(a: nat, n: nat, size: nat)
    requires 1 <= a <= TOP && 2 <= n <= size < TWO_16
    ensures var freq := SpineCounts(a, n) + Zeros(size - n);
      && Coded(freq) == freq && Words(freq) && |CodeLengths(freq)| == size && UsedCount(freq) == n
      && forall i | 0 <= i < n :: CodeLengths(freq)[i] == SpineDepth(n - 1, i) % TWO_8
  {
    hide Greedy, Assigned, LeafQueue, UsedCount, SpineTree;
    var f := SpineCounts(a, n);
    var freq := f + Zeros(size - n);
    assert Coded(freq) == freq;
    AscendingQueue(f);
    PaddedQueue(f, size - n);
    QueueSize(freq);
    var q := Leaves(f, 0);
    SpineStart(f);
    assert q == [SpineTree(f, 0)] + Leaves(f, 1);
    SpineMerge(a, n, 0);
    SpineAssigned(f, n - 1, 0, Zeros(size));
  }

  lemma SpineStart(f: seq<nat>)
    requires f != []
    ensures SpineTree(f, 0) == Leaf(f[0], 0)
  {
  }

  lemma {:induction false} SpineTotal(a: nat, n: nat)
    requires n >= 1
    ensures Total(SpineCounts(a, n)) == a + (n - 1) * TOP
  {
    var f := SpineCounts(a, n);
    if n == 1 {
      assert f[..0] == [];
    } else {
      SpineTotal(a, n - 1);
      assert f[..n - 1] == SpineCounts(a, n - 1);
    }
  }

  // ---- Which numbers of used symbols are always coded ----

  ghost predicate CodesUsed(freq: seq<nat>) {
    forall s | 0 <= s < |CodeLengths(freq)| :: CodeLengths(freq)[s] > 0 <==> freq[s] > 0
  }

  // Every table of 32-bit counts with k used symbols gives exactly these symbols a code, if and
  // only if k is at most 256: with more, some code may have 256 bits, whose 8-bit length is 0.
  lemma CodedThreshold(k: nat, size: nat)
    requires k <= size < TWO_16
    ensures (forall freq | |freq| == size && Words(freq) && UsedCount(freq) == k :: CodesUsed(freq)) <==> k <= 256
  {
    hide CodeLengths, UsedCount;
    if k <= 256 {
      forall freq: seq<nat> | |freq| == size && Words(freq) && UsedCount(freq) == k
        ensures CodesUsed(freq)
      {
        assert Coded(freq) == freq;
        ShallowTables(freq);
        forall s | 0 <= s < |CodeLengths(freq)|
          ensures CodeLengths(freq)[s] > 0 <==> freq[s] > 0
        {
          UsedIffCoded(freq, s);
        }
      }
    } else {
      var freq := SpineCounts(1, k) + Zeros(size - k);
      SpineLengths(1, k, size);
      assert freq[k - 256] > 0 && CodeLengths(freq)[k - 256] == 0;
      assert !CodesUsed(freq);
    }
  }

  // ---- Which totals are always coded optimally ----

  lemma {:induction false} UsedSumChange(f: seq<nat>, h: nat -> nat, k: nat -> nat, s: nat)
    requires s < |f| && f[s] > 0 && forall u | 0 <= u < |f| && u != s :: h(u) == k(u)
    ensures UsedSum(f, k) + h(s) == UsedSum(f, h) + k(s)
  {
    var n := |f| - 1;
    if s < n {
      UsedSumChange(f[..n], h, k, s);
    } else {
      UsedSumAgree(f[..n], h, k);
    }
  }

  // The effect of one new length on Kraft's sum and on the cost.
  lemma Relength(f: seq<nat>, len: seq<nat>, s: nat, x: nat, cap: nat)
    requires s < |f| == |len| && f[s] > 0 && len[s] <= cap && x <= cap
    ensures Kraft(f, len[s := x], cap) + Pow2(cap - len[s]) == Kraft(f, len, cap) + Pow2(cap - x)
    ensures CodeCost(f, len[s := x]) + f[s] * len[s] == CodeCost(f, len) + f[s] * x
  {
    UsedSumChange(f, KraftTerm(len, cap), KraftTerm(len[s := x], cap), s);
    UsedSumChange(f, CostTerm(f, len), CostTerm(f, len[s := x]), s);
  }

  lemma PairGain(a: nat, b: nat, c: nat, d: nat)
    requires d >= 3 && a + b > c
    ensures 2 * a + 2 * b + c * (d - 1) < a * d + b * d + c
  {
    assert (a + b - c) * (d - 2) > 0;
  }

  // The exchanged lengths: the pair goes to two bits, the one-bit symbol takes the pair's place.
  function Exchanged(len: seq<nat>, top: nat): (r: seq<nat>)
    requires 2 <= top < |len| && len[0] >= 1
    ensures |r| == |len|
  {
    len[0 := 2][1 := 2][top := len[0] - 1]
  }

  lemma ExchangeSums(f: seq<nat>, len: seq<nat>, top: nat, d: nat, cap: nat)
    requires 2 <= top < |f| == |len| && f[0] > 0 && f[1] > 0 && f[top] > 0
    requires len[0] == len[1] == d && 3 <= d <= cap && len[top] == 1
    ensures Kraft(f, Exchanged(len, top), cap) == Kraft(f, len, cap)
    ensures CodeCost(f, Exchanged(len, top)) + f[0] * d + f[1] * d + f[top]
         == CodeCost(f, len) + 2 * f[0] + 2 * f[1] + f[top] * (d - 1)
  {
    hide Kraft, CodeCost;
    Relength(f, len, 0, 2, cap);
    Relength(f, len[0 := 2], 1, 2, cap);
    Relength(f, len[0 := 2][1 := 2], top, d - 1, cap);
    assert Pow2(cap - (d - 1)) == 2 * Pow2(cap - d) && Pow2(cap - 1) == 2 * Pow2(cap - 2);
  }

  // Two symbols that share a parent three or more levels down and together outweigh a symbol one
  // level down: exchanging them is cheaper.
  lemma PairBeatsTop(f: seq<nat>, len: seq<nat>, top: nat)
    requires 2 <= top < |f| == |len| && f[0] > 0 && f[1] > 0 && f[top] > 0
    requires len[0] == len[1] >= 3 && len[top] == 1 && f[0] + f[1] > f[top]
    ensures !Optimal(f, len)
  {
    hide Kraft, CodeCost;
    var d, alt := len[0], Exchanged(len, top);
    if exists cap :: Realisable(f, len, cap) {
      var cap :| Realisable(f, len, cap);
      ExchangeSums(f, len, top, d, cap);
      PairGain(f[0], f[1], f[top], d);
      assert Realisable(f, alt, cap) && CodeCost(f, alt) < CodeCost(f, len);
    }
  }

  // A used symbol of length 0 leaves no room for any other.
  lemma ZeroNotOptimal(f: seq<nat>, len: seq<nat>, s: nat, t: nat)
    requires s < |f| == |len| && t < |f| && s != t && f[s] > 0 && f[t] > 0 && len[s] == 0
    ensures !Optimal(f, len)
  {
    forall cap: nat
      ensures !Realisable(f, len, cap)
    {
      ZeroFillsAll(f, len, s, t, cap);
    }
  }

  lemma ZeroFillsAll(f: seq<nat>, len: seq<nat>, s: nat, t: nat, cap: nat)
    requires s < |f| == |len| && t < |f| && s != t && f[s] > 0 && f[t] > 0 && len[s] == 0
    ensures !Realisable(f, len, cap)
  {
    hide UsedSum, UsedCount;
    var h := KraftTerm(len, cap);
    var h' := (u: nat) => if u == s then 0 else h(u);
    UsedSumChange(f, h', h, s);
    UsedSumFloor(f, h', t);
  }

  lemma {:induction false} UsedSumFloor(f: seq<nat>, h: nat -> nat, s: nat)
    requires s < |f| && f[s] > 0
    ensures UsedSum(f, h) >= h(s)
  {
    if s < |f| - 1 {
      UsedSumFloor(f[..|f| - 1], h, s);
    }
  }

  // Four ascending counts whose first two wrap: their merge is least again, whatever the others.
  ghost predicate FourWrap(f: seq<nat>) {
    |f| == 4 && Words(f) && f[0] <= f[1] <= f[2] <= f[3] && f[0] + f[1] >= TWO_32
  }

  lemma PairWraps(a: Tree, b: Tree)
    requires a.freq < TWO_32 && b.freq < TWO_32 && a.freq + b.freq >= TWO_32
    ensures Merge(a, b).freq < b.freq
  {
    var sum := a.freq + b.freq;
    assert Low32(sum) == Low32(sum - TWO_32) == sum - TWO_32;
  }

  lemma FourLeaves(f: seq<nat>)
    requires FourWrap(f)
    ensures LeafQueue(f) == [Leaf(f[0], 0), Leaf(f[1], 1), Leaf(f[2], 2), Leaf(f[3], 3)]
  {
    AscendingQueue(f);
    assert Leaves(f, 0) == [Leaf(f[0], 0), Leaf(f[1], 1), Leaf(f[2], 2), Leaf(f[3], 3)];
  }

  lemma FourTree(f: seq<nat>)
    requires FourWrap(f)
    ensures var three := Merge(Merge(Leaf(f[0], 0), Leaf(f[1], 1)), Leaf(f[2], 2));
      var root := Greedy(LeafQueue(f));
      root == Merge(three, Leaf(f[3], 3)) || root == Merge(Leaf(f[3], 3), three)
  {
    hide Greedy, Merge, LeafQueue, Insert;
    FourLeaves(f);
    var a, b, c, d := Leaf(f[0], 0), Leaf(f[1], 1), Leaf(f[2], 2), Leaf(f[3], 3);
    var pair := Merge(a, b);
    PairWraps(a, b);
    GreedyStep([a, b, c, d]);
    assert [a, b, c, d][2..] == [c, d];
    FrontPlace([c, d], pair);
    assert [pair] + [c, d] == [pair, c, d];
    GreedyThree(pair, c, d);
  }

  lemma AssignedLeaf(t: Tree, depth: nat, len: seq<nat>)
    requires t.Leaf? && t.sym < |len| && depth < TWO_8
    ensures Assigned(t, depth, len) == len[t.sym := depth]
  {
  }

  lemma ThreeAssigned(a: Tree, b: Tree, c: Tree, len: seq<nat>)
    requires a.Leaf? && b.Leaf? && c.Leaf? && a.sym == 0 && b.sym == 1 && c.sym == 2 && |len| >= 4
    ensures Assigned(Merge(Merge(a, b), c), 1, len) == len[0 := 3][1 := 3][2 := 2]
  {
    hide Assigned, Merge;
    AssignedMerge(Merge(a, b), c, 1, len);
    AssignedMerge(a, b, 2, len);
    AssignedLeaf(a, 3, len);
    AssignedLeaf(b, 3, len[0 := 3]);
    AssignedLeaf(c, 2, len[0 := 3][1 := 3]);
  }

  lemma FourAssigned(f: seq<nat>, len: seq<nat>)
    requires FourWrap(f) && |len| >= 4
    ensures var r := Assigned(Greedy(LeafQueue(f)), 0, len); r[0] == r[1] == 3 && r[3] == 1
  {
    hide Assigned, Merge, Greedy, LeafQueue;
    FourTree(f);
    var a, b, c, d := Leaf(f[0], 0), Leaf(f[1], 1), Leaf(f[2], 2), Leaf(f[3], 3);
    var three := Merge(Merge(a, b), c);
    AssignedMerge(three, d, 0, len);
    AssignedMerge(d, three, 0, len);
    ThreeAssigned(a, b, c, len);
    ThreeAssigned(a, b, c, len[3 := 1]);
    AssignedLeaf(d, 1, len);
    AssignedLeaf(d, 1, len[0 := 3][1 := 3][2 := 2]);
  }

  function Quarters(n: nat): (f: seq<nat>)
    ensures |f| == 4
  {
    [n / 4, n / 4, n / 4, n - 3 * (n / 4)]
  }

  lemma FourTotal(f: seq<nat>)
    requires |f| == 4
    ensures Total(f) == f[0] + f[1] + f[2] + f[3]
  {
    assert f[..3][..2] == f[..2] && f[..2][..1] == f[..1] && f[..1][..0] == [];
    assert Total(f[..1]) == f[0];
    assert Total(f[..2]) == f[0] + f[1];
    assert Total(f[..3]) == f[0] + f[1] + f[2];
  }

  // A table of total n, of the given size and with 32-bit counts, that is not coded optimally.
  ghost predicate Wasteful(freq: seq<nat>, n: nat, size: nat) {
    && |freq| == size && Words(freq) && Total(freq) == n && UsedCount(freq) >= 2
    && !Optimal(freq, CodeLengths(freq))
  }

  lemma QuartersWasteful(n: nat, size: nat)
    requires 2 * TWO_32 <= n <= 3 * TOP && 4 <= size < TWO_16
    ensures Wasteful(Quarters(n) + Zeros(size - 4), n, size)
  {
    hide Greedy, Assigned, LeafQueue, UsedCount, Optimal;
    var f := Quarters(n);
    var freq := f + Zeros(size - 4);
    assert FourWrap(f);
    assert Coded(freq) == freq;
    FourLeaves(f);
    FourTotal(f);
    PaddedQueue(f, size - 4);
    QueueSize(freq);
    FourAssigned(f, Zeros(size));
    PairBeatsTop(freq, CodeLengths(freq), 3);
  }

  lemma SpineWasteful(a: nat, k: nat, size: nat)
    requires 1 <= a <= TOP && 4 <= k <= size < TWO_16
    ensures Wasteful(SpineCounts(a, k) + Zeros(size - k), a + (k - 1) * TOP, size)
  {
    hide CodeLengths, LeafQueue, UsedCount, Optimal;
    var freq := SpineCounts(a, k) + Zeros(size - k);
    SpineLengths(a, k, size);
    SpineTotal(a, k);
    PaddedQueue(SpineCounts(a, k), size - k);
    if k <= 256 {
      PairBeatsTop(freq, CodeLengths(freq), k - 1);
    } else {
      ZeroNotOptimal(freq, CodeLengths(freq), k - 256, 0);
    }
  }

  // From a total of 2^33 on, as soon as four symbols are available, some table is not coded optimally.
  lemma WastefulTable(n: nat, size: nat) returns (freq: seq<nat>)
    requires 2 * TWO_32 <= n <= size * TOP && 4 <= size < TWO_16
    ensures Wasteful(freq, n, size)
  {
    hide Wasteful;
    if n <= 3 * TOP {
      freq := Quarters(n) + Zeros(size - 4);
      QuartersWasteful(n, size);
    } else {
      var k := (n - 1) / TOP + 1;
      var a := n - (k - 1) * TOP;
      SpineSplit(n, k, a, size);
      freq := SpineCounts(a, k) + Zeros(size - k);
      SpineWasteful(a, k, size);
    }
  }

  lemma SpineSplit(n: nat, k: nat, a: int, size: nat)
    requires 3 * TOP < n <= size * TOP && k == (n - 1) / TOP + 1 && a == n - (k - 1) * TOP
    ensures 1 <= a <= TOP && 4 <= k <= size
  {
    var q, r := (n - 1) / TOP, (n - 1) % TOP;
    assert n - 1 == q * TOP + r && 0 <= r < TOP;
  }

  // Every table of the given size and total, made of 32-bit counts, is coded optimally if and only
  // if the total is below 2^33 or the table has no more than three symbols.
  lemma OptimalityThreshold(n: nat, size: nat)
    requires n <= size * TOP && size < TWO_16
    ensures (forall freq | |freq| == size && Words(freq) && Total(freq) == n && UsedCount(freq) >= 2 ::
               Optimal(freq, CodeLengths(freq)))
       <==> n < 2 * TWO_32 || size <= 3
  {
    hide CodeLengths, UsedCount, Optimal, Total;
    if n < 2 * TWO_32 || size <= 3 {
      forall freq: seq<nat> | |freq| == size && Words(freq) && Total(freq) == n && UsedCount(freq) >= 2
        ensures Optimal(freq, CodeLengths(freq))
      {
        assert Coded(freq) == freq;
        UsedBelowSize(freq);
        Optimality(freq);
      }
    } else {
      var freq := WastefulTable(n, size);
    }
  }
}
