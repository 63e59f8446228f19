// The lengths the greedy merge produces are a complete prefix code of least cost.
module HuffmanOptimality {
  import opened Arith
  import opened HuffmanForest

  // ---- Kraft sums and costs of arbitrary length tables ----

  // Scaled by 2^cap: a code of length n weighs 2^(cap - n). Only symbols with freq > 0 count.
  function KraftTerm(len: seq<nat>, cap: nat): nat -> nat {
    (s: nat) => if s < |len| && len[s] <= cap then Pow2(cap - len[s]) else 0
  }

  function Kraft(f: seq<nat>, len: seq<nat>, cap: nat): nat {
    UsedSum(f, KraftTerm(len, cap))
  }

  function CostTerm(f: seq<nat>, len: seq<nat>): nat -> nat {
    (s: nat) => if s < |f| && s < |len| then f[s] * len[s] else 0
  }

  // Number of bits the table spends on a message with these frequencies.
  function CodeCost(f: seq<nat>, len: seq<nat>): nat {
    UsedSum(f, CostTerm(f, len))
  }

  // Some prefix code over the used symbols has these lengths (Kraft's inequality).
  ghost predicate Realisable(f: seq<nat>, len: seq<nat>, cap: nat) {
    && |len| == |f|
    && (forall s | 0 <= s < |f| && f[s] > 0 :: len[s] <= cap)
    && Kraft(f, len, cap) <= Pow2(cap)
  }

  // The lengths belong to a prefix code over the used symbols, and no such code is cheaper.
  ghost predicate Optimal(f: seq<nat>, len: seq<nat>) {
    && (exists cap :: Realisable(f, len, cap))
    && forall alt, cap | Realisable(f, alt, cap) :: CodeCost(f, len) <= CodeCost(f, alt)
  }

  // ---- Lists of (tree, length) pairs: the exchange argument ----

  function Dot(q: seq<Tree>, l: seq<nat>): nat
    requires |q| == |l|
  {
    if q == [] then 0 else q[0].freq * l[0] + Dot(q[1..], l[1..])
  }

  function KraftSeq(l: seq<nat>, cap: nat): nat
    requires forall i | 0 <= i < |l| :: l[i] <= cap
  {
    if l == [] then 0 else Pow2(cap - l[0]) + KraftSeq(l[1..], cap)
  }

  lemma {:induction false} KraftUpdate(l: seq<nat>, i: nat, x: nat, cap: nat)
    requires i < |l| && x <= cap && forall k | 0 <= k < |l| :: l[k] <= cap
    ensures KraftSeq(l[i := x], cap) + Pow2(cap - l[i]) == KraftSeq(l, cap) + Pow2(cap - x)
  {
    if i == 0 {
      assert l[i := x][1..] == l[1..];
    } else {
      KraftUpdate(l[1..], i - 1, x, cap);
      assert l[i := x][1..] == l[1..][i - 1 := x];
    }
  }

  lemma {:induction false} KraftInsert(l: seq<nat>, p: nat, x: nat, cap: nat)
    requires p <= |l| && x <= cap && forall k | 0 <= k < |l| :: l[k] <= cap
    ensures KraftSeq(l[..p] + [x] + l[p..], cap) == KraftSeq(l, cap) + Pow2(cap - x)
  {
    var r := l[..p] + [x] + l[p..];
    if p == 0 {
      assert r[1..] == l;
    } else {
      KraftInsert(l[1..], p - 1, x, cap);
      assert r[1..] == l[1..][..p - 1] + [x] + l[1..][p - 1..];
    }
  }

  lemma {:induction false} KraftRescale(l: seq<nat>, cap: nat)
    requires forall k | 0 <= k < |l| :: l[k] <= cap
    ensures KraftSeq(l, cap + 1) == 2 * KraftSeq(l, cap)
  {
    if l != [] {
      KraftRescale(l[1..], cap);
    }
  }

  lemma {:induction false} KraftPositive(l: seq<nat>, cap: nat)
    requires forall k | 0 <= k < |l| :: l[k] <= cap
    ensures KraftSeq(l, cap) >= |l|
  {
    if l != [] {
      KraftPositive(l[1..], cap);
    }
  }

  lemma {:induction false} DotUpdate(q: seq<Tree>, l: seq<nat>, i: nat, x: nat)
    requires |q| == |l| && i < |l|
    ensures Dot(q, l[i := x]) + q[i].freq * l[i] == Dot(q, l) + q[i].freq * x
  {
    if i == 0 {
      assert l[i := x][1..] == l[1..];
    } else {
      DotUpdate(q[1..], l[1..], i - 1, x);
      assert l[i := x][1..] == l[1..][i - 1 := x];
    }
  }

  lemma {:induction false} DotInsert(q: seq<Tree>, l: seq<nat>, p: nat, t: Tree, x: nat)
    requires |q| == |l| && p <= |l|
    ensures Dot(q[..p] + [t] + q[p..], l[..p] + [x] + l[p..]) == Dot(q, l) + t.freq * x
  {
    var qi := q[..p] + [t] + q[p..];
    var li := l[..p] + [x] + l[p..];
    if p == 0 {
      assert qi[1..] == q && li[1..] == l;
    } else {
      DotInsert(q[1..], l[1..], p - 1, t, x);
      assert qi[1..] == q[1..][..p - 1] + [t] + q[1..][p - 1..];
      assert li[1..] == l[1..][..p - 1] + [x] + l[1..][p - 1..];
    }
  }

  lemma MulMono(a: nat, b: nat, x: nat, y: nat)
    requires a <= b && x <= y
    ensures a * y + b * x <= a * x + b * y
  {
    assert (b - a) * (y - x) >= 0;
  }

  // Giving the longer code to the lighter tree costs no more.
  lemma Swap(q: seq<Tree>, l: seq<nat>, i: nat, j: nat, cap: nat) returns (r: seq<nat>)
    requires |q| == |l| && i < |l| && j < |l|
    requires forall k | 0 <= k < |l| :: l[k] <= cap
    requires q[i].freq <= q[j].freq && l[i] <= l[j]
    ensures |r| == |l| && r == l[i := l[j]][j := l[i]]
    ensures KraftSeq(r, cap) == KraftSeq(l, cap) && Dot(q, r) <= Dot(q, l)
  {
    r := l[i := l[j]][j := l[i]];
    if i == j {
      assert r == l;
    } else {
      var m := l[i := l[j]];
      KraftUpdate(l, i, l[j], cap);
      DotUpdate(q, l, i, l[j]);
      KraftUpdate(m, j, l[i], cap);
      DotUpdate(q, m, j, l[i]);
      MulMono(q[i].freq, q[j].freq, l[i], l[j]);
    }
  }

  // With a single code of the greatest length there is slack to shorten it: the Kraft sum is odd.
  lemma Shorten(l: seq<nat>, i: nat, cap: nat)
    requires i < |l| && l[i] == cap > 0
    requires forall k | 0 <= k < |l| && k != i :: l[k] < cap
    requires KraftSeq(l, cap) <= Pow2(cap)
    ensures KraftSeq(l[i := cap - 1], cap - 1) <= Pow2(cap - 1)
  {
    KraftUpdate(l, i, cap - 1, cap);
    KraftRescale(l[i := cap - 1], cap - 1);
  }

  lemma DropLast(l: seq<nat>, cap: nat)
    requires cap > 0 && forall k | 0 <= k < |l| :: l[k] < cap
    requires KraftSeq(l, cap) <= Pow2(cap)
    ensures KraftSeq(l, cap - 1) <= Pow2(cap - 1)
  {
    KraftRescale(l, cap - 1);
  }

  // Total cost of the trees already built.
  function ForestCost(q: seq<Tree>): nat {
    if q == [] then 0 else Cost(q[0]) + ForestCost(q[1..])
  }

  ghost predicate TrueWeights(q: seq<Tree>) {
    forall t | t in q :: t.freq == Weight(t)
  }

  lemma {:induction false} ForestCostConcat(a: seq<Tree>, b: seq<Tree>)
    ensures ForestCost(a + b) == ForestCost(a) + ForestCost(b)
  {
    if a == [] {
      assert a + b == b;
    } else {
      ForestCostConcat(a[1..], b);
      assert (a + b)[1..] == a[1..] + b;
    }
  }

  lemma InsertCost(q: seq<Tree>, t: Tree)
    ensures ForestCost(Insert(q, t)) == ForestCost(q) + Cost(t)
  {
    var p := InsertPos(q, t);
    ForestCostConcat(q[..p] + [t], q[p..]);
    ForestCostConcat(q[..p], [t]);
    ForestCostConcat(q[..p], q[p..]);
    assert q[..p] + q[p..] == q;
    assert [t][1..] == [];
  }

  // ---- No wrap: stored frequencies are true weights ----

  function ForestWeight(q: seq<Tree>): nat {
    if q == [] then 0 else Weight(q[0]) + ForestWeight(q[1..])
  }

  function FreqTerm(f: seq<nat>): nat -> nat {
    (s: nat) => if s < |f| then f[s] else 0
  }

  lemma {:induction false} TreeWeightIsSum(t: Tree, f: seq<nat>)
    requires Proper(t, f)
    ensures Weight(t) == TreeSum(t, FreqTerm(f))
  {
    match t
    case Leaf(_, _) =>
    case Node(_, _, l, r) =>
      TreeWeightIsSum(l, f);
      TreeWeightIsSum(r, f);
  }

  lemma {:induction false} ForestWeightIsSum(q: seq<Tree>, f: seq<nat>)
    requires forall i | 0 <= i < |q| :: Proper(q[i], f)
    ensures ForestWeight(q) == ForestSum(q, FreqTerm(f))
  {
    if q != [] {
      TreeWeightIsSum(q[0], f);
      ForestWeightIsSum(q[1..], f);
    }
  }

  lemma {:induction false} UsedSumAgree(f: seq<nat>, h: nat -> nat, k: nat -> nat)
    requires forall s | 0 <= s < |f| && f[s] > 0 :: h(s) == k(s)
    ensures UsedSum(f, h) == UsedSum(f, k)
  {
    if f != [] {
      UsedSumAgree(f[..|f| - 1], h, k);
    }
  }

  lemma {:induction false} UsedSumOfFreq(f: seq<nat>)
    ensures UsedSum(f, FreqTerm(f)) == Total(f)
  {
    if f != [] {
      var s := |f| - 1;
      UsedSumOfFreq(f[..s]);
      UsedSumAgree(f[..s], FreqTerm(f), FreqTerm(f[..s]));
    }
  }

  lemma FourWeights(q: seq<Tree>)
    requires |q| >= 4
    ensures Weight(q[0]) + Weight(q[1]) + Weight(q[2]) + Weight(q[3]) <= ForestWeight(q)
  {
    hide Weight;
    var r := q[2..];
    assert q[1..][1..] == r && q[1] == q[1..][0] && r[1..][1..] == q[4..];
    assert ForestWeight(q) == Weight(q[0]) + (Weight(q[1]) + ForestWeight(r));
    assert ForestWeight(r) == Weight(r[0]) + (Weight(r[1]) + ForestWeight(r[1..][1..]));
  }

  // With four or more trees of total weight below 2^33 the two least cannot wrap: the second
  // least would weigh 2^31 or more, so the third and fourth would too.
  lemma MergedFreq(q: seq<Tree>, f: seq<nat>)
    requires |q| >= 4 && Queue(q, f) && TrueWeights(q)
    requires ForestSum(q, FreqTerm(f)) < 2 * TWO_32
    ensures q[0].freq + q[1].freq < TWO_32
    ensures Merge(q[0], q[1]).freq == Weight(Merge(q[0], q[1]))
  {
    hide ForestSum, Weight, ForestWeight, FreqTerm, Low32;
    ForestWeightIsSum(q, f);
    FourWeights(q);
    assert KeyLess(q[0], q[1]) && KeyLess(q[1], q[2]) && KeyLess(q[1], q[3]);
    MergedWeight(q[0], q[1]);
  }

  lemma MergedWeight(a: Tree, b: Tree)
    requires a.freq == Weight(a) && b.freq == Weight(b) && a.freq + b.freq < TWO_32
    ensures Merge(a, b).freq == Weight(Merge(a, b))
  {
  }

  lemma MergeKeepsTrueWeights(q: seq<Tree>, f: seq<nat>)
    requires |q| >= 4 && Queue(q, f) && TrueWeights(q)
    requires ForestSum(q, FreqTerm(f)) < 2 * TWO_32
    ensures TrueWeights(MergeStep(q))
    ensures ForestSum(MergeStep(q), FreqTerm(f)) < 2 * TWO_32
  {
    MergedFreq(q, f);
    MergeStepSum(q, FreqTerm(f));
    InsertedFrom(q[2..], Merge(q[0], q[1]));
  }

  // ---- Optimality on forests ----

  // The longest code can be moved to the two lightest trees without raising the cost.
  lemma DeepestFirst(q: seq<Tree>, l: seq<nat>, cap: nat, i: nat, j: nat) returns (r: seq<nat>)
    requires |q| == |l| >= 2
    requires forall i, j | 0 <= i < j < |q| :: q[i].freq <= q[j].freq
    requires forall k | 0 <= k < |l| :: l[k] <= cap
    requires i < j < |l| && l[i] == l[j] == cap
    ensures |r| == |l| && r[0] == r[1] == cap && (forall k | 0 <= k < |r| :: r[k] <= cap)
    ensures KraftSeq(r, cap) == KraftSeq(l, cap) && Dot(q, r) <= Dot(q, l)
  {
    var m := Swap(q, l, 0, i, cap);
    r := Swap(q, m, 1, j, cap);
  }

  // The merged list prices the pair as one tree one level up.
  lemma MergeLengths(q: seq<Tree>, l: seq<nat>, cap: nat) returns (r: seq<nat>)
    requires |q| == |l| >= 2 && l[0] == l[1] == cap > 0
    requires forall k | 0 <= k < |l| :: l[k] <= cap
    requires TrueWeights(q) && (q[0].freq + q[1].freq) < TWO_32
    ensures |r| == |MergeStep(q)| && forall k | 0 <= k < |r| :: r[k] <= cap
    ensures KraftSeq(r, cap) == KraftSeq(l, cap)
    ensures Dot(MergeStep(q), r) + Weight(q[0]) + Weight(q[1]) == Dot(q, l)
  {
    hide KraftSeq, Dot, KeyLess;
    var t := Merge(q[0], q[1]);
    var p := InsertPos(q[2..], t);
    r := l[2..][..p] + [cap - 1] + l[2..][p..];
    KraftInsert(l[2..], p, cap - 1, cap);
    DotInsert(q[2..], l[2..], p, t, cap - 1);
    TopTwo(q, l, cap);
    Raise(q[0].freq, q[1].freq, cap);
  }

  lemma Raise(a: nat, b: nat, cap: nat)
    requires cap > 0
    ensures (a + b) * (cap - 1) + a + b == a * cap + b * cap
  {
  }

  lemma TopTwo(q: seq<Tree>, l: seq<nat>, cap: nat)
    requires |q| == |l| >= 2 && l[0] == l[1] == cap
    requires forall k | 0 <= k < |l| :: l[k] <= cap
    ensures KraftSeq(l, cap) == 2 + KraftSeq(l[2..], cap)
    ensures Dot(q, l) == q[0].freq * cap + q[1].freq * cap + Dot(q[2..], l[2..])
  {
    assert l[1..][1..] == l[2..] && q[1..][1..] == q[2..];
    assert KraftSeq(l[1..], cap) == Pow2(0) + KraftSeq(l[1..][1..], cap);
    assert Dot(q[1..], l[1..]) == q[1].freq * cap + Dot(q[1..][1..], l[1..][1..]);
  }

  lemma MergeStepCost(q: seq<Tree>)
    requires |q| >= 2
    ensures ForestCost(MergeStep(q)) == ForestCost(q) + Weight(q[0]) + Weight(q[1])
  {
    InsertCost(q[2..], Merge(q[0], q[1]));
    assert q[1..][1..] == q[2..];
  }

  // With two longest codes, the merged list can do no better than the given one.
  lemma PairDeepest(q: seq<Tree>, l: seq<nat>, cap: nat, f: seq<nat>, i: nat, j: nat) returns (r: seq<nat>)
    requires |q| == |l| >= 4 && Queue(q, f) && TrueWeights(q) && cap > 0
    requires ForestSum(q, FreqTerm(f)) < 2 * TWO_32
    requires forall k | 0 <= k < |l| :: l[k] <= cap
    requires i < j < |l| && l[i] == l[j] == cap
    ensures |r| == |MergeStep(q)| && forall k | 0 <= k < |r| :: r[k] <= cap
    ensures KraftSeq(r, cap) == KraftSeq(l, cap)
    ensures ForestCost(MergeStep(q)) + Dot(MergeStep(q), r) <= ForestCost(q) + Dot(q, l)
  {
    MergedFreq(q, f);
    var m := DeepestFirst(q, l, cap, i, j);
    r := MergeLengths(q, m, cap);
    MergeStepCost(q);
  }

  lemma ShortenOne(q: seq<Tree>, l: seq<nat>, i: nat, cap: nat)
    requires |q| == |l| && i < |l| && l[i] == cap > 0
    requires forall k | 0 <= k < |l| && k != i :: l[k] < cap
    requires KraftSeq(l, cap) <= Pow2(cap)
    ensures KraftSeq(l[i := cap - 1], cap - 1) <= Pow2(cap - 1)
    ensures Dot(q, l[i := cap - 1]) <= Dot(q, l)
  {
    Shorten(l, i, cap);
    DotUpdate(q, l, i, cap - 1);
    MulMono(0, q[i].freq, cap - 1, cap);
  }

  // Three codes that satisfy Kraft's inequality: at most one has a single bit, none has none.
  lemma ThreeLengths(a: nat, b: nat, c: nat, cap: nat)
    requires a <= cap && b <= cap && c <= cap
    requires Pow2(cap - a) + Pow2(cap - b) + Pow2(cap - c) <= Pow2(cap)
    ensures a >= 1 && b >= 1 && c >= 1 && (a >= 2 || b >= 2) && (a >= 2 || c >= 2) && (b >= 2 || c >= 2)
  {
    if cap == 0 {
      assert false;
    } else {
      assert Pow2(cap) == 2 * Pow2(cap - 1);
    }
  }

  lemma AtLeast(w: nat, l: nat, k: nat)
    requires l >= k
    ensures w * l >= w * k
  {
    assert w * (l - k) >= 0;
  }

  lemma ThreeCost(u: nat, v: nat, w: nat, a: nat, b: nat, c: nat)
    requires u <= w && v <= w && a >= 1 && b >= 1 && c >= 1
    requires (a >= 2 || b >= 2) && (a >= 2 || c >= 2) && (b >= 2 || c >= 2)
    ensures u * a + v * b + w * c >= 2 * u + 2 * v + w
  {
    AtLeast(u, a, if a >= 2 then 2 else 1);
    AtLeast(v, b, if b >= 2 then 2 else 1);
    AtLeast(w, c, if c >= 2 then 2 else 1);
  }

  lemma TwoTerms(q: seq<Tree>, l: seq<nat>, cap: nat)
    requires |q| == |l| == 2 && forall k | 0 <= k < |l| :: l[k] <= cap
    ensures KraftSeq(l, cap) == Pow2(cap - l[0]) + Pow2(cap - l[1])
    ensures Dot(q, l) == q[0].freq * l[0] + q[1].freq * l[1]
    ensures ForestCost(q) == Cost(q[0]) + Cost(q[1])
  {
    hide Cost, Pow2;
    assert q[1..][1..] == [] && l[1..][1..] == [];
    assert KraftSeq(l, cap) == Pow2(cap - l[0]) + (Pow2(cap - l[1]) + KraftSeq([], cap));
    assert Dot(q, l) == q[0].freq * l[0] + (q[1].freq * l[1] + Dot([], []));
    assert ForestCost(q) == Cost(q[0]) + (Cost(q[1]) + ForestCost([]));
  }

  lemma TwoLengths(a: nat, b: nat, cap: nat)
    requires a <= cap && b <= cap && Pow2(cap - a) + Pow2(cap - b) <= Pow2(cap)
    ensures a >= 1 && b >= 1
  {
  }

  lemma TwoOptimal(q: seq<Tree>, l: seq<nat>, cap: nat)
    requires |q| == |l| == 2 && TrueWeights(q)
    requires forall k | 0 <= k < |l| :: l[k] <= cap
    requires KraftSeq(l, cap) <= Pow2(cap)
    ensures Cost(Greedy(q)) <= ForestCost(q) + Dot(q, l)
  {
    hide Greedy, Weight, KraftSeq, Dot, ForestCost, Pow2, Low32;
    assert q == [q[0], q[1]];
    GreedyTwo(q[0], q[1]);
    TwoTerms(q, l, cap);
    TwoLengths(l[0], l[1], cap);
    assert q[0] in q && q[1] in q;
    AtLeast(q[0].freq, l[0], 1);
    AtLeast(q[1].freq, l[1], 1);
  }

  lemma ThreeTerms(q: seq<Tree>, l: seq<nat>, cap: nat)
    requires |q| == |l| == 3 && forall k | 0 <= k < |l| :: l[k] <= cap
    ensures KraftSeq(l, cap) == Pow2(cap - l[0]) + Pow2(cap - l[1]) + Pow2(cap - l[2])
    ensures Dot(q, l) == q[0].freq * l[0] + q[1].freq * l[1] + q[2].freq * l[2]
    ensures ForestCost(q) == Cost(q[0]) + Cost(q[1]) + Cost(q[2])
  {
    hide Cost, Pow2;
    var q', l' := q[1..], l[1..];
    assert q'[1..][1..] == [] && l'[1..][1..] == [];
    assert KraftSeq(l', cap) == Pow2(cap - l'[0]) + (Pow2(cap - l'[1]) + KraftSeq([], cap));
    assert Dot(q', l') == q'[0].freq * l'[0] + (q'[1].freq * l'[1] + Dot([], []));
    assert ForestCost(q') == Cost(q'[0]) + (Cost(q'[1]) + ForestCost([]));
  }

  lemma ThreeOptimal(q: seq<Tree>, l: seq<nat>, cap: nat)
    requires |q| == |l| == 3 && InOrder(q) && TrueWeights(q)
    requires forall k | 0 <= k < |l| :: l[k] <= cap
    requires KraftSeq(l, cap) <= Pow2(cap)
    ensures Cost(Greedy(q)) <= ForestCost(q) + Dot(q, l)
  {
    hide Greedy, KraftSeq, Dot, ForestCost, Pow2, Weight;
    assert q == [q[0], q[1], q[2]];
    GreedyThree(q[0], q[1], q[2]);
    ThreeTerms(q, l, cap);
    ThreeLengths(l[0], l[1], l[2], cap);
    assert KeyLess(q[0], q[2]) && KeyLess(q[1], q[2]);
    assert q[0] in q && q[1] in q && q[2] in q;
    ThreeCost(q[0].freq, q[1].freq, q[2].freq, l[0], l[1], l[2]);
    MergedCost(q[0], q[1], q[2]);
  }

  lemma MergedCost(a: Tree, b: Tree, c: Tree)
    ensures Cost(Merge(Merge(a, b), c)) == Cost(a) + Cost(b) + Cost(c) + 2 * Weight(a) + 2 * Weight(b) + Weight(c)
    ensures Cost(Merge(c, Merge(a, b))) == Cost(a) + Cost(b) + Cost(c) + 2 * Weight(a) + 2 * Weight(b) + Weight(c)
  {
    hide Low32;
    var m := Merge(a, b);
    assert Weight(m) == Weight(a) + Weight(b) && Cost(m) == Cost(a) + Cost(b) + Weight(a) + Weight(b);
  }

  // Any lengths that satisfy Kraft's inequality cost at least what the greedy merge adds. The
  // stored weights may wrap only once three trees are left, where the order no longer matters.
  lemma {:induction false} ForestOptimal(q: seq<Tree>, l: seq<nat>, cap: nat, f: seq<nat>)
    requires |q| == |l| >= 1 && Queue(q, f) && TrueWeights(q)
    requires ForestSum(q, FreqTerm(f)) < 2 * TWO_32 || |q| <= 3
    requires forall k | 0 <= k < |l| :: l[k] <= cap
    requires KraftSeq(l, cap) <= Pow2(cap)
    ensures Cost(Greedy(q)) <= ForestCost(q) + Dot(q, l)
    decreases |q|, cap
  {
    if |q| == 1 {
      assert q[1..] == [];
    } else if |q| == 2 {
      TwoOptimal(q, l, cap);
    } else if |q| == 3 {
      ThreeOptimal(q, l, cap);
    } else if cap == 0 {
      KraftPositive(l, cap);
    } else if forall k | 0 <= k < |l| :: l[k] < cap {
      DropLast(l, cap);
      ForestOptimal(q, l, cap - 1, f);
    } else {
      var i :| 0 <= i < |l| && l[i] == cap;
      if forall k | 0 <= k < |l| && k != i :: l[k] < cap {
        ShortenOne(q, l, i, cap);
        ForestOptimal(q, l[i := cap - 1], cap - 1, f);
      } else {
        var j :| 0 <= j < |l| && j != i && l[j] == cap;
        var r := PairDeepest(q, l, cap, f, if i < j then i else j, if i < j then j else i);
        MergeKeepsTrueWeights(q, f);
        MergeKeepsQueue(q, f);
        ForestOptimal(MergeStep(q), r, cap, f);
      }
    }
  }

  // ---- From forests back to length tables ----

  // The lengths an arbitrary table gives to the leaves in queue order.
  function LeafLengths(q: seq<Tree>, len: seq<nat>): (l: seq<nat>)
    requires forall i | 0 <= i < |q| :: q[i].Leaf? && q[i].sym < |len|
    ensures |l| == |q|
    ensures forall i | 0 <= i < |q| :: l[i] == len[q[i].sym]
  {
    seq(|q|, i requires 0 <= i < |q| => len[q[i].sym])
  }

  lemma {:induction false} LeafSums(q: seq<Tree>, f: seq<nat>, len: seq<nat>, cap: nat)
    requires |f| == |len|
    requires forall i | 0 <= i < |q| :: Proper(q[i], f)
    requires forall i | 0 <= i < |q| :: q[i].Leaf? && q[i].sym < |len| && len[q[i].sym] <= cap
    ensures Dot(q, LeafLengths(q, len)) == ForestSum(q, CostTerm(f, len))
    ensures KraftSeq(LeafLengths(q, len), cap) == ForestSum(q, KraftTerm(len, cap))
  {
    if q != [] {
      LeafSums(q[1..], f, len, cap);
      assert LeafLengths(q, len)[1..] == LeafLengths(q[1..], len);
    }
  }

  lemma {:induction false} LeafForestCost(q: seq<Tree>)
    requires forall i | 0 <= i < |q| :: q[i].Leaf?
    ensures ForestCost(q) == 0
  {
    if q != [] {
      LeafForestCost(q[1..]);
    }
  }

  // A proper tree whose depths the table records, all of them below 256.
  lemma {:induction false} TreeCostIsSum(t: Tree, depth: nat, f: seq<nat>, len: seq<nat>)
    requires Proper(t, f) && |len| == |f| && DepthsAgree(t, depth, len)
    requires depth + Height(t) < TWO_8
    ensures TreeSum(t, CostTerm(f, len)) == Cost(t) + depth * Weight(t)
  {
    match t
    case Leaf(_, s) =>
      assert len[s] == depth && t.freq == f[s];
      Commute(f[s], depth);
    case Node(_, _, l, r) =>
      TreeCostIsSum(l, depth + 1, f, len);
      TreeCostIsSum(r, depth + 1, f, len);
      DepthSplit(depth, Weight(l), Weight(r));
  }

  lemma Commute(a: nat, b: nat)
    ensures a * b == b * a
  {
  }

  lemma DepthSplit(depth: nat, a: nat, b: nat)
    ensures (depth + 1) * a + (depth + 1) * b == depth * (a + b) + a + b
  {
  }

  lemma {:induction false} TreeKraftIsFull(t: Tree, depth: nat, f: seq<nat>, len: seq<nat>, cap: nat)
    requires Proper(t, f) && |len| == |f| && DepthsAgree(t, depth, len)
    requires depth + Height(t) < TWO_8 && depth + Height(t) <= cap
    ensures TreeSum(t, KraftTerm(len, cap)) == Pow2(cap - depth)
  {
    match t
    case Leaf(_, _) =>
    case Node(_, _, l, r) =>
      TreeKraftIsFull(l, depth + 1, f, len, cap);
      TreeKraftIsFull(r, depth + 1, f, len, cap);
  }
}
