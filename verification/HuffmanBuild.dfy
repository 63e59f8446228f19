// HuffmanCodeLengths as the source runs it: a growing node arena, a priority queue of arena
// indices, and a table of lengths filled in place.
module HuffmanBuild {
  import opened Arith
  import opened HuffmanForest
  import opened HuffmanLengths

  // left == right == -1 marks a leaf, as the null pointers do.
  datatype ArenaNode = ArenaNode(freq: nat, sym: nat, left: int, right: int)

  ghost predicate Arena(nodes: seq<ArenaNode>) {
    forall i | 0 <= i < |nodes| ::
      (nodes[i].left == -1 && nodes[i].right == -1) || (0 <= nodes[i].left < i && 0 <= nodes[i].right < i)
  }

  ghost function TreeAt(nodes: seq<ArenaNode>, i: nat): Tree
    requires Arena(nodes) && i < |nodes|
  {
    var n := nodes[i];
    if n.left == -1 then Leaf(n.freq, n.sym)
    else Node(n.freq, n.sym, TreeAt(nodes, n.left), TreeAt(nodes, n.right))
  }

  ghost predicate Indices(nodes: seq<ArenaNode>, pq: seq<nat>) {
    Arena(nodes) && forall k | 0 <= k < |pq| :: pq[k] < |nodes|
  }

  ghost function Forest(nodes: seq<ArenaNode>, pq: seq<nat>): (q: seq<Tree>)
    requires Indices(nodes, pq)
    ensures |q| == |pq|
  {
    if pq == [] then [] else [TreeAt(nodes, pq[0])] + Forest(nodes, pq[1..])
  }

  lemma {:induction false} ForestIndex(nodes: seq<ArenaNode>, pq: seq<nat>, k: nat)
    requires Indices(nodes, pq) && k < |pq|
    ensures Forest(nodes, pq)[k] == TreeAt(nodes, pq[k])
  {
    if k > 0 {
      ForestIndex(nodes, pq[1..], k - 1);
    }
  }

  lemma {:induction false} ForestSplit(nodes: seq<ArenaNode>, a: seq<nat>, b: seq<nat>)
    requires Indices(nodes, a + b) && Indices(nodes, a) && Indices(nodes, b)
    ensures Forest(nodes, a + b) == Forest(nodes, a) + Forest(nodes, b)
  {
    if a == [] {
      assert a + b == b;
    } else {
      assert (a + b)[1..] == a[1..] + b;
      ForestSplit(nodes, a[1..], b);
    }
  }

  // push_back never disturbs the nodes already stored.
  lemma {:induction false} TreeAtStable(nodes: seq<ArenaNode>, n: ArenaNode, i: nat)
    requires Arena(nodes) && Arena(nodes + [n]) && i < |nodes|
    ensures TreeAt(nodes + [n], i) == TreeAt(nodes, i)
  {
    if nodes[i].left != -1 {
      TreeAtStable(nodes, n, nodes[i].left);
      TreeAtStable(nodes, n, nodes[i].right);
    }
  }

  lemma {:induction false} ForestStable(nodes: seq<ArenaNode>, n: ArenaNode, pq: seq<nat>)
    requires Indices(nodes, pq) && Arena(nodes + [n])
    ensures Indices(nodes + [n], pq) && Forest(nodes + [n], pq) == Forest(nodes, pq)
  {
    if pq != [] {
      TreeAtStable(nodes, n, pq[0]);
      ForestStable(nodes, n, pq[1..]);
    }
  }

  lemma {:induction false} InsertPosUnique(q: seq<Tree>, t: Tree, p: nat)
    requires p <= |q| && (forall i | 0 <= i < p :: !KeyLess(t, q[i])) && (p < |q| ==> KeyLess(t, q[p]))
    ensures p == InsertPos(q, t)
  {
  }

  lemma ForestWith(nodes: seq<ArenaNode>, pq: seq<nat>, p: nat, i: nat)
    requires Indices(nodes, pq) && i < |nodes| && p <= |pq|
    ensures Indices(nodes, pq[..p] + [i] + pq[p..])
    ensures Forest(nodes, pq[..p] + [i] + pq[p..])
         == Forest(nodes, pq)[..p] + [TreeAt(nodes, i)] + Forest(nodes, pq)[p..]
  {
    assert pq[..p] + pq[p..] == pq;
    ForestSplit(nodes, pq[..p], pq[p..]);
    ForestSplit(nodes, pq[..p] + [i], pq[p..]);
    ForestSplit(nodes, pq[..p], [i]);
    assert Forest(nodes, [i]) == [TreeAt(nodes, i)];
  }

  lemma ForestCons(nodes: seq<ArenaNode>, pq: seq<nat>)
    requires Indices(nodes, pq) && pq != []
    ensures Forest(nodes, pq) == [TreeAt(nodes, pq[0])] + Forest(nodes, pq[1..])
  {
    hide TreeAt;
  }

  lemma ForestTwo(nodes: seq<ArenaNode>, pq: seq<nat>)
    requires Indices(nodes, pq) && |pq| >= 2
    ensures Forest(nodes, pq) == [TreeAt(nodes, pq[0]), TreeAt(nodes, pq[1])] + Forest(nodes, pq[2..])
  {
    hide Forest, TreeAt, Arena;
    ForestCons(nodes, pq);
    ForestCons(nodes, pq[1..]);
    assert pq[1..][1..] == pq[2..];
    ConsTwice(TreeAt(nodes, pq[0]), TreeAt(nodes, pq[1]), Forest(nodes, pq[2..]));
  }

  lemma ConsTwice(a: Tree, b: Tree, q: seq<Tree>)
    ensures [a] + ([b] + q) == [a, b] + q
  {
  }

  // Appending the parent of two stored nodes makes their merge.
  lemma ParentAppended(nodes: seq<ArenaNode>, n: ArenaNode, rest: seq<nat>)
    requires Indices(nodes, rest) && 0 <= n.left < |nodes| && 0 <= n.right < |nodes|
    requires n.freq == Low32(nodes[n.left].freq + nodes[n.right].freq)
    requires n.sym == Min(nodes[n.left].sym, nodes[n.right].sym)
    ensures Indices(nodes + [n], rest) && Forest(nodes + [n], rest) == Forest(nodes, rest)
    ensures TreeAt(nodes + [n], |nodes|) == Merge(TreeAt(nodes, n.left), TreeAt(nodes, n.right))
  {
    ForestStable(nodes, n, rest);
    TreeAtStable(nodes, n, n.left);
    TreeAtStable(nodes, n, n.right);
  }

  // priority_queue::push; the queue is kept in the order top() and pop() reveal.
  method Push(nodes: seq<ArenaNode>, pq: seq<nat>, i: nat) returns (pq': seq<nat>)
    requires Indices(nodes, pq) && i < |nodes|
    ensures Indices(nodes, pq') && Forest(nodes, pq') == Insert(Forest(nodes, pq), TreeAt(nodes, i))
  {
    var p := 0;
    ghost var q, t := Forest(nodes, pq), TreeAt(nodes, i);
    while p < |pq| && !(nodes[i].freq < nodes[pq[p]].freq ||
                        (nodes[i].freq == nodes[pq[p]].freq && nodes[i].sym < nodes[pq[p]].sym))
      invariant p <= |pq|
      invariant forall k | 0 <= k < p :: !KeyLess(t, q[k])
    {
      ForestIndex(nodes, pq, p);
      p := p + 1;
    }
    if p < |pq| {
      ForestIndex(nodes, pq, p);
    }
    InsertPosUnique(q, t, p);
    pq' := pq[..p] + [i] + pq[p..];
    ForestWith(nodes, pq, p, i);
  }

  lemma NoLeaves(f: seq<nat>)
    ensures LeafQueue(f[..0]) == [] && UsedCount(f[..0]) == 0
  {
  }

  lemma NextLeaf(f: seq<nat>, s: nat)
    requires s < |f|
    ensures LeafQueue(f[..s + 1]) == if f[s] == 0 then LeafQueue(f[..s]) else Insert(LeafQueue(f[..s]), Leaf(f[s], s))
    ensures UsedCount(f[..s + 1]) == UsedCount(f[..s]) + (if f[s] == 0 then 0 else 1)
  {
    assert f[..s + 1][..s] == f[..s];
  }

  lemma LeafAppended(nodes: seq<ArenaNode>, freq: nat, s: nat)
    requires Arena(nodes)
    ensures var n := ArenaNode(freq, s, -1, -1);
      Arena(nodes + [n]) && TreeAt(nodes + [n], |nodes|) == Leaf(freq, s)
  {
  }

  // The leaf loop: one node and one queue entry for each used symbol.
  method CollectLeaves(f: seq<nat>) returns (nodes: seq<ArenaNode>, pq: seq<nat>)
    ensures Indices(nodes, pq) && Forest(nodes, pq) == LeafQueue(f)
    ensures |nodes| == |pq| == UsedCount(f) <= |f|
  {
    hide LeafQueue, UsedCount, Insert, TreeAt;
    nodes, pq := [], [];
    NoLeaves(f);
    for s := 0 to |f|
      invariant Indices(nodes, pq) && Forest(nodes, pq) == LeafQueue(f[..s])
      invariant |nodes| == |pq| == UsedCount(f[..s]) <= s
    {
      NextLeaf(f, s);
      if f[s] != 0 {
        LeafAppended(nodes, f[s], s);
        var n := ArenaNode(f[s], s, -1, -1);
        ForestStable(nodes, n, pq);
        nodes := nodes + [n];
        pq := Push(nodes, pq, |nodes| - 1);
      }
    }
    assert f[..|f|] == f;
    QueueSize(f);
  }

  // One turn of the merge loop: pops the two least nodes and pushes their parent.
  method MergeTwo(nodes: seq<ArenaNode>, pq: seq<nat>) returns (nodes': seq<ArenaNode>, pq': seq<nat>)
    requires Indices(nodes, pq) && |pq| >= 2
    ensures Indices(nodes', pq') && |nodes'| == |nodes| + 1 && |pq'| == |pq| - 1
    ensures Forest(nodes', pq') == MergeStep(Forest(nodes, pq))
  {
    var a, b, rest := pq[0], pq[1], pq[2..];
    ForestTwo(nodes, pq);
    var n := ArenaNode(Low32(nodes[a].freq + nodes[b].freq), Min(nodes[a].sym, nodes[b].sym), a, b);
    ParentAppended(nodes, n, rest);
    nodes' := nodes + [n];
    pq' := Push(nodes', rest, |nodes|);
    assert |Forest(nodes', pq')| == |pq'|;
  }

  // The arena ends with one node fewer than twice the leaves, so a reservation of 2 * S is
  // never outgrown and no stored node moves.
  method MergeAll(leaves: seq<ArenaNode>, queue: seq<nat>) returns (nodes: seq<ArenaNode>, root: nat)
    requires Indices(leaves, queue) && |queue| >= 1
    ensures Arena(nodes) && root < |nodes| && TreeAt(nodes, root) == Greedy(Forest(leaves, queue))
    ensures |nodes| == |leaves| + |queue| - 1
  {
    nodes := leaves;
    var pq := queue;
    while |pq| > 1
      invariant Indices(nodes, pq) && |pq| >= 1
      invariant |nodes| + |pq| == |leaves| + |queue|
      invariant Greedy(Forest(nodes, pq)) == Greedy(Forest(leaves, queue))
      decreases |pq|
    {
      nodes, pq := MergeTwo(nodes, pq);
    }
    root := pq[0];
    ForestIndex(nodes, pq, 0);
  }

  method AssignLengths(nodes: seq<ArenaNode>, i: nat, depth: nat, len: array<nat>)
    requires Arena(nodes) && i < |nodes|
    requires forall s | s in Syms(TreeAt(nodes, i)) :: s < len.Length
    modifies len
    ensures len[..] == Assigned(TreeAt(nodes, i), depth, old(len[..]))
    decreases i
  {
    var n := nodes[i];
    ghost var t := TreeAt(nodes, i);
    if n.left == -1 && n.right == -1 {
      assert n.sym in Syms(t);
      len[n.sym] := depth % TWO_8;
      return;
    }
    assert Syms(t) == Syms(TreeAt(nodes, n.left)) + Syms(TreeAt(nodes, n.right));
    AssignLengths(nodes, n.left, depth + 1, len);
    AssignLengths(nodes, n.right, depth + 1, len);
  }

  // The result is the specified table: of two or more used symbols, the depths in the tree any priority
  // queue builds; of a single one, one bit. The lemmas about CodeLengths say when it is optimal (any
  // 32-bit counts that sum below 2^33) and when complete (up to 256 used symbols).
  method HuffmanCodeLengths(freq: seq<nat>) returns (len: array<nat>)
    requires forall s | 0 <= s < |freq| :: freq[s] < TWO_32
    ensures fresh(len) && len[..] == CodeLengths(freq)
    ensures len.Length == |freq| % 0x1_0000 && forall s | 0 <= s < len.Length :: len[s] < TWO_8
    ensures var f := freq[..len.Length];
      && (UsedCount(f) == 1 ==> forall s | 0 <= s < len.Length :: len[s] == if f[s] > 0 then 1 else 0)
      && (UsedCount(f) >= 2 ==>
            forall root | Builds(LeavesOf(f), UsedCount(f), root) :: DepthsAgree(root, 0, len[..]))
  {
    hide Greedy, Assigned, LeafQueue, Syms, UsedCount, Builds, LeavesOf, DepthsAgree;
    TableMeans(freq);
    var size := |freq| % TWO_16;
    var f := freq[..size];
    len := new nat[size](_ => 0);
    assert len[..] == Zeros(size);
    var nodes, pq := CollectLeaves(f);
    ghost var q := LeafQueue(f);
    LeafQueueHolds(f);
    if |pq| == 0 {
      return;
    }
    if |pq| == 1 {
      ForestIndex(nodes, pq, 0);
      assert Proper(q[0], f);
      len[nodes[pq[0]].sym] := 1;
      return;
    }
    var root;
    nodes, root := MergeAll(nodes, pq);
    assert |nodes| < 2 * size;
    GreedyProper(q, f);
    SymInSyms(Greedy(q), f);
    AssignLengths(nodes, root, 0, len);
    AssignedIsByte(Greedy(q), 0, Zeros(size));
  }

  lemma {:induction false} AssignedIsByte(t: Tree, depth: nat, len: seq<nat>)
    requires forall s | 0 <= s < |len| :: len[s] < TWO_8
    ensures forall s | 0 <= s < |len| :: Assigned(t, depth, len)[s] < TWO_8
  {
    match t
    case Leaf(_, _) =>
    case Node(_, _, l, r) =>
      AssignedIsByte(l, depth + 1, len);
      AssignedIsByte(r, depth + 1, Assigned(l, depth + 1, len));
  }
}
