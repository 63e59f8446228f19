// The greedy merge of src/coeff/huffman_canonical.cpp as a function on forests, with the
// bookkeeping every later result needs: which symbols a tree holds, its true weight, and that
// sums over the symbols survive every queue operation.
module HuffmanForest {
  import opened Arith

  // A node of the arena seen as a tree. `freq` is the stored 32-bit value, `sym` the smallest
  // symbol below the node (the tie-break key of NodeLess).
  datatype Tree =
    | Leaf(freq: nat, sym: nat)
    | Node(freq: nat, sym: nat, left: Tree, right: Tree)

  predicate KeyLess(a: Tree, b: Tree) {
    a.freq < b.freq || (a.freq == b.freq && a.sym < b.sym)
  }

  function Merge(a: Tree, b: Tree): Tree {
    Node(Low32(a.freq + b.freq), Min(a.sym, b.sym), a, b)
  }

  // Where the queue, kept in pop order, takes a new tree.
  function InsertPos(q: seq<Tree>, t: Tree): (p: nat)
    ensures p <= |q|
    ensures forall i | 0 <= i < p :: !KeyLess(t, q[i])
    ensures p < |q| ==> KeyLess(t, q[p])
  {
    if q == [] || KeyLess(t, q[0]) then 0 else 1 + InsertPos(q[1..], t)
  }

  function Insert(q: seq<Tree>, t: Tree): (r: seq<Tree>)
    ensures |r| == |q| + 1
  {
    var p := InsertPos(q, t);
    q[..p] + [t] + q[p..]
  }

  // The queue after the leaf loop: one leaf for each symbol with a non-zero frequency.
  function LeafQueue(freq: seq<nat>): seq<Tree> {
    if freq == [] then []
    else
      var s := |freq| - 1;
      var q := LeafQueue(freq[..s]);
      if freq[s] == 0 then q else Insert(q, Leaf(freq[s], s))
  }

  function MergeStep(q: seq<Tree>): (r: seq<Tree>)
    requires |q| >= 2
    ensures |r| == |q| - 1
  {
    Insert(q[2..], Merge(q[0], q[1]))
  }

  function Greedy(q: seq<Tree>): Tree
    requires |q| >= 1
    decreases |q|
  {
    if |q| == 1 then q[0] else Greedy(MergeStep(q))
  }

  // Writes depth (as an 8-bit value) at every leaf's symbol.
  function Assigned(t: Tree, depth: nat, len: seq<nat>): (r: seq<nat>)
    ensures |r| == |len|
    decreases t
  {
    match t
    case Leaf(_, s) => if s < |len| then len[s := depth % TWO_8] else len
    case Node(_, _, l, r) => Assigned(r, depth + 1, Assigned(l, depth + 1, len))
  }

  // HuffmanCodeLengths: the table size is a 16-bit value, so only freq[..S] takes part.
  function Coded(freq: seq<nat>): seq<nat> {
    freq[..|freq| % TWO_16]
  }

  function Zeros(n: nat): seq<nat> {
    seq(n, _ => 0)
  }

  function CodeLengths(freq: seq<nat>): (len: seq<nat>)
    ensures |len| == |Coded(freq)|
  {
    var f := Coded(freq);
    var q := LeafQueue(f);
    if q == [] then Zeros(|f|)
    else if |q| == 1 then (if q[0].sym < |f| then Zeros(|f|)[q[0].sym := 1] else Zeros(|f|))
    else Assigned(Greedy(q), 0, Zeros(|f|))
  }

  lemma GreedySingle(t: Tree)
    ensures Greedy([t]) == t
  {
  }

  lemma GreedyStep(q: seq<Tree>)
    requires |q| >= 2
    ensures Greedy(q) == Greedy(Insert(q[2..], Merge(q[0], q[1])))
  {
    hide Insert, Merge;
  }

  lemma InsertOnly(t: Tree)
    ensures Insert([], t) == [t]
  {
  }

  lemma GreedyTwo(a: Tree, b: Tree)
    ensures Greedy([a, b]) == Merge(a, b)
  {
    hide Insert, Merge, Greedy;
    var q := [a, b];
    GreedyStep(q);
    assert q[2..] == [];
    InsertOnly(Merge(a, b));
    GreedySingle(Merge(a, b));
  }

  lemma FrontPlace(q: seq<Tree>, t: Tree)
    requires q != [] && KeyLess(t, q[0])
    ensures Insert(q, t) == [t] + q
  {
  }

  lemma EitherPlace(d: Tree, t: Tree)
    ensures Insert([d], t) == [t, d] || Insert([d], t) == [d, t]
  {
    assert InsertPos([d], t) <= 1;
  }

  // The last two merges join the first two of three trees, and then the third.
  lemma GreedyThree(a: Tree, b: Tree, c: Tree)
    ensures Greedy([a, b, c]) == Merge(Merge(a, b), c) || Greedy([a, b, c]) == Merge(c, Merge(a, b))
  {
    hide Insert, Merge, Greedy;
    var q, m := [a, b, c], Merge(a, b);
    GreedyStep(q);
    assert q[2..] == [c];
    EitherPlace(c, m);
    GreedyTwo(m, c);
    GreedyTwo(c, m);
  }

  // ---- Measures ----

  function Syms(t: Tree): set<nat> {
    match t
    case Leaf(_, s) => {s}
    case Node(_, _, l, r) => Syms(l) + Syms(r)
  }

  function Weight(t: Tree): nat {
    match t
    case Leaf(w, _) => w
    case Node(_, _, l, r) => Weight(l) + Weight(r)
  }

  function Height(t: Tree): nat {
    match t
    case Leaf(_, _) => 0
    case Node(_, _, l, r) => 1 + Max(Height(l), Height(r))
  }

  // Sum over the leaves of weight times depth below t.
  function Cost(t: Tree): nat {
    match t
    case Leaf(_, _) => 0
    case Node(_, _, l, r) => Cost(l) + Cost(r) + Weight(l) + Weight(r)
  }

  // Sum of h over the symbols at the leaves.
  function TreeSum(t: Tree, h: nat -> nat): nat {
    match t
    case Leaf(_, s) => h(s)
    case Node(_, _, l, r) => TreeSum(l, h) + TreeSum(r, h)
  }

  // Every leaf carries its own symbol's frequency, which is positive, and no symbol occurs twice.
  ghost predicate Proper(t: Tree, f: seq<nat>) {
    match t
    case Leaf(w, s) => s < |f| && w == f[s] && 0 < w < TWO_32
    case Node(_, s, l, r) => Proper(l, f) && Proper(r, f) && Syms(l) !! Syms(r) && s == Min(l.sym, r.sym)
  }

  function UsedSum(f: seq<nat>, h: nat -> nat): nat {
    if f == [] then 0
    else UsedSum(f[..|f| - 1], h) + (if f[|f| - 1] == 0 then 0 else h(|f| - 1))
  }

  function ForestSum(q: seq<Tree>, h: nat -> nat): nat {
    if q == [] then 0 else TreeSum(q[0], h) + ForestSum(q[1..], h)
  }

  function Total(f: seq<nat>): nat {
    if f == [] then 0 else Total(f[..|f| - 1]) + f[|f| - 1]
  }

  ghost predicate Disjoint(q: seq<Tree>) {
    forall i, j | 0 <= i < j < |q| :: Syms(q[i]) !! Syms(q[j])
  }

  ghost predicate InOrder(q: seq<Tree>) {
    forall i, j | 0 <= i < j < |q| :: KeyLess(q[i], q[j])
  }

  // What holds of the queue at every turn of the merge loop.
  ghost predicate Queue(q: seq<Tree>, f: seq<nat>) {
    (forall i | 0 <= i < |q| :: Proper(q[i], f)) && Disjoint(q) && InOrder(q)
  }

  // ---- The queue invariant ----

  lemma {:induction false} SymInSyms(t: Tree, f: seq<nat>)
    requires Proper(t, f)
    ensures t.sym in Syms(t)
    ensures forall s | s in Syms(t) :: t.sym <= s < |f| && f[s] > 0
  {
    match t
    case Leaf(_, _) =>
    case Node(_, _, l, r) =>
      SymInSyms(l, f);
      SymInSyms(r, f);
  }

  lemma InsertKeepsQueue(q: seq<Tree>, t: Tree, f: seq<nat>)
    requires Queue(q, f) && Proper(t, f)
    requires forall i | 0 <= i < |q| :: Syms(q[i]) !! Syms(t)
    ensures Queue(Insert(q, t), f)
  {
    hide Syms, Proper, Insert;
    forall i | 0 <= i < |q|
      ensures q[i].sym != t.sym
    {
      SymInSyms(t, f);
      SymInSyms(q[i], f);
    }
    var p := InsertPos(q, t);
    InsertIs(q, t);
    OrderWith(q, t, InsertPos(q, t));
    DisjointWith(q, t, InsertPos(q, t));
    InsertedFrom(q, t);
  }

  lemma InsertIs(q: seq<Tree>, t: Tree)
    ensures Insert(q, t) == q[..InsertPos(q, t)] + [t] + q[InsertPos(q, t)..]
  {
  }

  lemma InsertedFrom(q: seq<Tree>, t: Tree)
    ensures forall u | u in Insert(q, t) :: u == t || u in q
    ensures multiset(Insert(q, t)) == multiset(q) + multiset{t}
  {
    InsertedOnce(q, t, InsertPos(q, t));
    var p := InsertPos(q, t);
    assert forall u | u in q[..p] + [t] + q[p..] :: u in q[..p] || u == t || u in q[p..];
  }

  lemma InsertedOnce(q: seq<Tree>, t: Tree, p: nat)
    requires p <= |q|
    ensures multiset(q[..p] + [t] + q[p..]) == multiset(q) + multiset{t}
  {
    assert q == q[..p] + q[p..];
  }

  lemma OrderWith(q: seq<Tree>, t: Tree, p: nat)
    requires InOrder(q) && p <= |q|
    requires (forall i | 0 <= i < p :: KeyLess(q[i], t)) && (p < |q| ==> KeyLess(t, q[p]))
    ensures InOrder(q[..p] + [t] + q[p..])
  {
    forall i | p < i < |q|
      ensures KeyLess(t, q[i])
    {
      assert KeyLess(q[p], q[i]);
    }
  }

  lemma DisjointWith(q: seq<Tree>, t: Tree, p: nat)
    requires Disjoint(q) && p <= |q| && forall i | 0 <= i < |q| :: Syms(q[i]) !! Syms(t)
    ensures Disjoint(q[..p] + [t] + q[p..])
  {
  }

  // A queue's trees ascend by weight, ties by least symbol.
  lemma QueueAscends(q: seq<Tree>, f: seq<nat>)
    requires Queue(q, f)
    ensures forall i, j | 0 <= i < j < |q| ::
      q[i].freq < q[j].freq || (q[i].freq == q[j].freq && q[i].sym < q[j].sym)
    ensures forall i | 0 <= i < |q| :: q[i].sym in Syms(q[i]) && forall s | s in Syms(q[i]) :: q[i].sym <= s
  {
    hide Syms, Proper;
    forall i | 0 <= i < |q|
      ensures q[i].sym in Syms(q[i]) && forall s | s in Syms(q[i]) :: q[i].sym <= s
    {
      SymInSyms(q[i], f);
    }
    assert forall i, j | 0 <= i < j < |q| :: KeyLess(q[i], q[j]);
  }

  // One turn joins the two trees of least weight, ties by least symbol, under their 32-bit sum, and
  // leaves the others. No queue the loop reaches holds two trees with equal keys, so the pops it makes
  // are forced whatever the heap's layout.
  lemma MergeKeepsQueue(q: seq<Tree>, f: seq<nat>)
    requires Queue(q, f) && |q| >= 2
    ensures Queue(MergeStep(q), f)
    ensures forall i, j | 0 <= i < j < |q| ::
      q[i].freq < q[j].freq || (q[i].freq == q[j].freq && q[i].sym < q[j].sym)
    ensures forall i | 0 <= i < |q| :: q[i].sym in Syms(q[i]) && forall s | s in Syms(q[i]) :: q[i].sym <= s
    ensures multiset(MergeStep(q)) == multiset(q[2..]) + multiset{
      Node((q[0].freq + q[1].freq) % 0x1_0000_0000, if q[0].sym < q[1].sym then q[0].sym else q[1].sym, q[0], q[1])}
  {
    hide Syms, Insert, Low32;
    QueueAscends(q, f);
    var t := Merge(q[0], q[1]);
    TailQueue(q, f);
    MergeProper(q, f);
    InsertKeepsQueue(q[2..], t, f);
    InsertedFrom(q[2..], t);
    Low32IsMod(q[0].freq + q[1].freq);
  }

  lemma TailQueue(q: seq<Tree>, f: seq<nat>)
    requires Queue(q, f) && |q| >= 2
    ensures Queue(q[2..], f)
  {
  }

  lemma MergeProper(q: seq<Tree>, f: seq<nat>)
    requires Queue(q, f) && |q| >= 2
    ensures Proper(Merge(q[0], q[1]), f)
    ensures forall i | 0 <= i < |q[2..]| :: Syms(q[2..][i]) !! Syms(Merge(q[0], q[1]))
  {
  }

  lemma {:induction false} ProperWiden(t: Tree, f: seq<nat>, g: seq<nat>)
    requires Proper(t, f) && f <= g
    ensures Proper(t, g)
  {
    match t
    case Leaf(_, _) =>
    case Node(_, _, l, r) =>
      ProperWiden(l, f, g);
      ProperWiden(r, f, g);
  }

  lemma {:induction false} LeafQueueHolds(f: seq<nat>)
    requires forall s | 0 <= s < |f| :: f[s] < TWO_32
    ensures Queue(LeafQueue(f), f)
    ensures forall i | 0 <= i < |LeafQueue(f)| :: LeafQueue(f)[i].Leaf?
  {
    if f != [] {
      var s := |f| - 1;
      var q := LeafQueue(f[..s]);
      LeafQueueHolds(f[..s]);
      forall i | 0 <= i < |q|
        ensures Proper(q[i], f) && s !in Syms(q[i])
      {
        ProperWiden(q[i], f[..s], f);
        SymInSyms(q[i], f[..s]);
      }
      if f[s] != 0 {
        InsertKeepsQueue(q, Leaf(f[s], s), f);
      }
    }
  }

  // The initial queue: a leaf for every used symbol, ascending by count, ties by symbol.
  lemma LeavesAscend(f: seq<nat>)
    requires forall s | 0 <= s < |f| :: f[s] < TWO_32
    ensures multiset(LeafQueue(f)) == LeavesOf(f)
    ensures var q := LeafQueue(f); forall i, j | 0 <= i < j < |q| ::
      q[i].freq < q[j].freq || (q[i].freq == q[j].freq && q[i].sym < q[j].sym)
  {
    LeafQueueHolds(f);
    QueueAscends(LeafQueue(f), f);
    QueueOfLeaves(f);
  }

  // ---- Sums survive the queue operations ----

  lemma {:induction false} ForestSumConcat(a: seq<Tree>, b: seq<Tree>, h: nat -> nat)
    ensures ForestSum(a + b, h) == ForestSum(a, h) + ForestSum(b, h)
  {
    if a == [] {
      assert a + b == b;
    } else {
      ForestSumConcat(a[1..], b, h);
      assert (a + b)[1..] == a[1..] + b;
    }
  }

  lemma InsertSum(q: seq<Tree>, t: Tree, h: nat -> nat)
    ensures ForestSum(Insert(q, t), h) == ForestSum(q, h) + TreeSum(t, h)
  {
    var p := InsertPos(q, t);
    ForestSumConcat(q[..p] + [t], q[p..], h);
    ForestSumConcat(q[..p], [t], h);
    ForestSumConcat(q[..p], q[p..], h);
    assert q[..p] + q[p..] == q;
    assert [t][1..] == [];
    assert ForestSum([t], h) == TreeSum(t, h) + ForestSum([], h);
  }

  lemma MergeStepSum(q: seq<Tree>, h: nat -> nat)
    requires |q| >= 2
    ensures ForestSum(MergeStep(q), h) == ForestSum(q, h)
  {
    InsertSum(q[2..], Merge(q[0], q[1]), h);
    assert q[1..][1..] == q[2..];
  }

  lemma {:induction false} GreedySum(q: seq<Tree>, h: nat -> nat)
    requires |q| >= 1
    ensures TreeSum(Greedy(q), h) == ForestSum(q, h)
    decreases |q|
  {
    if |q| == 1 {
      assert q[1..] == [];
    } else {
      MergeStepSum(q, h);
      GreedySum(MergeStep(q), h);
    }
  }

  lemma {:induction false} GreedyProper(q: seq<Tree>, f: seq<nat>)
    requires |q| >= 1 && Queue(q, f)
    ensures Proper(Greedy(q), f)
    decreases |q|
  {
    if |q| > 1 {
      MergeKeepsQueue(q, f);
      GreedyProper(MergeStep(q), f);
    }
  }

  // Whatever is summed, the leaves of the initial queue are exactly the used symbols.
  lemma {:induction false} LeafQueueSum(f: seq<nat>, h: nat -> nat)
    ensures ForestSum(LeafQueue(f), h) == UsedSum(f, h)
  {
    if f != [] {
      var s := |f| - 1;
      LeafQueueSum(f[..s], h);
      if f[s] != 0 {
        InsertSum(LeafQueue(f[..s]), Leaf(f[s], s), h);
      }
    }
  }

  // ---- Assigned writes each leaf's depth at its symbol and nothing else ----

  ghost predicate DepthsAgree(t: Tree, depth: nat, len: seq<nat>) {
    match t
    case Leaf(_, s) => s < |len| && len[s] == depth % TWO_8
    case Node(_, _, l, r) => DepthsAgree(l, depth + 1, len) && DepthsAgree(r, depth + 1, len)
  }

  lemma {:induction false} DepthsFrame(t: Tree, depth: nat, len: seq<nat>, len': seq<nat>)
    requires DepthsAgree(t, depth, len) && |len| == |len'|
    requires forall s | s in Syms(t) && s < |len| :: len'[s] == len[s]
    ensures DepthsAgree(t, depth, len')
  {
    match t
    case Leaf(_, _) =>
    case Node(_, _, l, r) =>
      DepthsFrame(l, depth + 1, len, len');
      DepthsFrame(r, depth + 1, len, len');
  }

  lemma {:induction false} AssignedCorrect(t: Tree, depth: nat, len: seq<nat>, f: seq<nat>)
    requires Proper(t, f) && |len| == |f|
    ensures DepthsAgree(t, depth, Assigned(t, depth, len))
    ensures forall s | 0 <= s < |len| && s !in Syms(t) :: Assigned(t, depth, len)[s] == len[s]
  {
    match t
    case Leaf(_, _) =>
    case Node(_, _, l, r) =>
      var mid := Assigned(l, depth + 1, len);
      AssignedCorrect(l, depth + 1, len, f);
      AssignedCorrect(r, depth + 1, mid, f);
      DepthsFrame(l, depth + 1, mid, Assigned(r, depth + 1, mid));
  }

  // ---- What any priority queue builds ----

  // The leaves of the used symbols, in no order.
  ghost function LeavesOf(f: seq<nat>): multiset<Tree> {
    if f == [] then multiset{}
    else
      var s := |f| - 1;
      LeavesOf(f[..s]) + (if f[s] == 0 then multiset{} else multiset{Leaf(f[s], s)})
  }

  // The two trees of a forest that come first by weight, ties by least symbol.
  ghost predicate LeastTwo(forest: multiset<Tree>, a: Tree, b: Tree) {
    && multiset{a} + multiset{b} <= forest
    && (a.freq < b.freq || (a.freq == b.freq && a.sym < b.sym))
    && forall t | t in forest - multiset{a} - multiset{b} :: b.freq < t.freq || (b.freq == t.freq && b.sym < t.sym)
  }

  ghost function Join(forest: multiset<Tree>, a: Tree, b: Tree): multiset<Tree> {
    var sym := if a.sym < b.sym then a.sym else b.sym;
    forest - multiset{a} - multiset{b} + multiset{Node((a.freq + b.freq) % 0x1_0000_0000, sym, a, b)}
  }

  // Joining the first two again and again, n trees, leaves root.
  ghost predicate Builds(forest: multiset<Tree>, n: nat, root: Tree)
    decreases n
  {
    if n <= 1 then forest == multiset{root}
    else exists a, b :: LeastTwo(forest, a, b) && Builds(Join(forest, a, b), n - 1, root)
  }

  lemma QueueLeast(q: seq<Tree>, f: seq<nat>)
    requires Queue(q, f) && |q| >= 2
    ensures LeastTwo(multiset(q), q[0], q[1])
    ensures forall a, b | LeastTwo(multiset(q), a, b) :: a == q[0] && b == q[1]
    ensures Join(multiset(q), q[0], q[1]) == multiset(MergeStep(q))
  {
    hide Syms, Queue, LeastTwo, MergeStep;
    MergeKeepsQueue(q, f);
    HeadIsLeast(q);
    forall a, b | LeastTwo(multiset(q), a, b)
      ensures a == q[0] && b == q[1]
    {
      FirstTwo(q, a, b);
    }
  }

  lemma TailMultiset(q: seq<Tree>)
    requires |q| >= 2
    ensures multiset(q) == multiset{q[0]} + multiset{q[1]} + multiset(q[2..])
  {
    assert q == [q[0], q[1]] + q[2..];
  }

  lemma HeadIsLeast(q: seq<Tree>)
    requires |q| >= 2
    requires forall i, j | 0 <= i < j < |q| ::
      q[i].freq < q[j].freq || (q[i].freq == q[j].freq && q[i].sym < q[j].sym)
    ensures LeastTwo(multiset(q), q[0], q[1])
    ensures multiset(q) - multiset{q[0]} - multiset{q[1]} == multiset(q[2..])
  {
    TailMultiset(q);
    forall t | t in multiset(q[2..])
      ensures q[1].freq < t.freq || (q[1].freq == t.freq && q[1].sym < t.sym)
    {
      assert t in q[2..];
    }
  }

  lemma FirstTwo(q: seq<Tree>, a: Tree, b: Tree)
    requires |q| >= 2 && LeastTwo(multiset(q), a, b)
    requires forall i, j | 0 <= i < j < |q| ::
      q[i].freq < q[j].freq || (q[i].freq == q[j].freq && q[i].sym < q[j].sym)
    ensures a == q[0] && b == q[1]
  {
    assert a in multiset(q) && b in multiset(q);
    var i :| 0 <= i < |q| && q[i] == a;
    var j :| 0 <= j < |q| && q[j] == b;
    if i > 0 {
      NotLast(q, a, b, 0);
    }
    if j > 1 {
      NotLast(q, a, b, 1);
    }
  }

  // A tree other than the two is not before the second.
  lemma NotLast(q: seq<Tree>, a: Tree, b: Tree, k: nat)
    requires k < |q| && LeastTwo(multiset(q), a, b)
    ensures q[k] == a || !(q[k].freq < b.freq || (q[k].freq == b.freq && q[k].sym < b.sym))
  {
    assert q[k] in multiset(q);
    if q[k] != a && q[k] != b {
      assert q[k] in multiset(q) - multiset{a} - multiset{b};
    }
  }

  // However the two first trees are found, the tree built is the same.
  lemma {:induction false} AnyHeap(q: seq<Tree>, f: seq<nat>, root: Tree)
    requires Queue(q, f) && q != []
    ensures Builds(multiset(q), |q|, root) <==> root == Greedy(q)
    decreases |q|
  {
    hide Queue, LeastTwo, Join, MergeStep;
    if |q| == 1 {
      assert q == [q[0]] && multiset(q) == multiset{q[0]};
      assert root in multiset{root};
    } else {
      QueueLeast(q, f);
      MergeKeepsQueue(q, f);
      AnyHeap(MergeStep(q), f, root);
    }
  }

  lemma {:induction false} QueueOfLeaves(f: seq<nat>)
    ensures multiset(LeafQueue(f)) == LeavesOf(f)
  {
    if f != [] {
      var s := |f| - 1;
      QueueOfLeaves(f[..s]);
      if f[s] != 0 {
        InsertedFrom(LeafQueue(f[..s]), Leaf(f[s], s));
      }
    }
  }
}
