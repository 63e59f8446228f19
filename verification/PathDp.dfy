// The per-cluster reconstruction DP: nodes in any order, memoised by a three-state mark that also
// detects cycles in the parent pointers.
module PathDp {
  import opened Vectors
  import opened Linkage
  import opened Sorting

  const UNSEEN: nat := 0
  const ON_STACK: nat := 1
  const DONE: nat := 2

  // parent_local: -1 where the path ends.
  function ParentLocal(cv: Cluster): (par: seq<int>)
    requires Sized(cv)
    ensures |par| == Nodes(cv)
    ensures forall i | 0 <= i < |par| ::
      par[i] == if IsRoot(cv, i) || cv.parent[i - cv.nVirt] == 0 then -1 else cv.parent[i - cv.nVirt] as int - 1
  {
    seq(Nodes(cv), i requires 0 <= i < Nodes(cv) =>
      if IsRoot(cv, i) || cv.parent[i - cv.nVirt] == 0 then -1 else cv.parent[i - cv.nVirt] as int - 1)
  }

  ghost predicate InRange(par: seq<int>) {
    forall i | 0 <= i < |par| :: -1 <= par[i] < |par|
  }

  // The k-th ancestor, -1 past the end of the path.
  function Walk(par: seq<int>, i: int, k: nat): (r: int)
    requires InRange(par) && -1 <= i < |par|
    ensures -1 <= r < |par|
    decreases k
  {
    if i == -1 || k == 0 then i else Walk(par, par[i], k - 1)
  }

  ghost predicate OnCycle(par: seq<int>, i: int, k: nat)
    requires InRange(par)
  {
    0 <= i < |par| && k >= 1 && Walk(par, i, k) == i
  }

  ghost predicate Cyclic(par: seq<int>)
    requires InRange(par)
  {
    exists i, k: nat :: OnCycle(par, i, k)
  }

  lemma {:induction false} WalkAdd(par: seq<int>, i: int, j: nat, k: nat)
    requires InRange(par) && -1 <= i < |par|
    ensures Walk(par, i, j + k) == Walk(par, Walk(par, i, j), k)
    decreases j
  {
    if i != -1 && j > 0 {
      WalkAdd(par, par[i], j - 1, k);
    }
  }

  // ---- Orders in which parents come first ----

  ghost predicate ParentsFirst(par: seq<int>, order: seq<nat>) {
    forall k | 0 <= k < |order| :: order[k] < |par| && (par[order[k]] == -1 || par[order[k]] in order[..k])
  }

  // From position k of such an order the walk ends within k + 1 steps.
  lemma {:induction false} OrderedEnds(par: seq<int>, order: seq<nat>, k: nat)
    requires InRange(par) && ParentsFirst(par, order) && k < |order|
    ensures exists n: nat :: n <= k + 1 && Walk(par, order[k], n) == -1
  {
    var p := par[order[k]];
    if p == -1 {
      assert Walk(par, order[k], 1) == -1;
    } else {
      var j :| 0 <= j < k && order[j] == p;
      OrderedEnds(par, order, j);
      var n: nat :| n <= j + 1 && Walk(par, order[j], n) == -1;
      assert Walk(par, order[k], n + 1) == -1;
    }
  }

  lemma {:induction false} EndedStays(par: seq<int>, i: int, n: nat, k: nat)
    requires InRange(par) && -1 <= i < |par| && Walk(par, i, n) == -1 && k >= n
    ensures Walk(par, i, k) == -1
  {
    WalkAdd(par, i, n, k - n);
  }

  lemma {:induction false} CycleRepeats(par: seq<int>, i: int, k: nat, times: nat)
    requires InRange(par) && OnCycle(par, i, k)
    ensures Walk(par, i, times * k) == i
  {
    if times > 0 {
      CycleRepeats(par, i, k, times - 1);
      WalkAdd(par, i, k, (times - 1) * k);
      assert times * k == k + (times - 1) * k;
    }
  }

  // An order of all nodes with parents first rules out every cycle.
  lemma OrderExcludesCycles(par: seq<int>, order: seq<nat>)
    requires InRange(par) && ParentsFirst(par, order) && forall i | 0 <= i < |par| :: i in order
    ensures !Cyclic(par)
  {
    forall i, k: nat | OnCycle(par, i, k)
      ensures false
    {
      assert i in order;
      var pos :| 0 <= pos < |order| && order[pos] == i;
      OrderedEnds(par, order, pos);
      var n: nat :| n <= pos + 1 && Walk(par, i, n) == -1;
      CycleRepeats(par, i, k, n);
      LongEnough(n, k);
      EndedStays(par, i, n, n * k);
    }
  }

  lemma LongEnough(n: nat, k: nat)
    requires k >= 1
    ensures n * k >= n
  {
  }

  // ---- What the table holds ----

  // Row i is the root vector of i, or its parent's row plus its own linkage part.
  ghost predicate RowRight(b: Books, cv: Cluster, v: seq<Vec>, i: nat)
    requires Covers(b, cv) && |v| == Nodes(cv)
  {
    var par := ParentLocal(cv);
    i < |v| && (
      if par[i] == -1 then v[i] == RootVec(b, cv, i)
      else cv.nVirt <= i && par[i] < |v| && |v[par[i]]| == b.d && v[i] == Add(v[par[i]], LinkVec(b, cv, i)))
  }

  // The reconstruction along the parent path of at most k further nodes.
  function Along(b: Books, cv: Cluster, i: nat, k: nat): (r: Vec)
    requires Covers(b, cv) && InRange(ParentLocal(cv)) && i < Nodes(cv)
    ensures |r| == b.d
    decreases k
  {
    var p := ParentLocal(cv)[i];
    if p == -1 then RootVec(b, cv, i)
    else if k == 0 then Zero(b.d)
    else Add(Along(b, cv, p, k - 1), LinkVec(b, cv, i))
  }

  // Right rows are path reconstructions: the equations leave no other choice.
  lemma {:induction false} RowsArePaths(b: Books, cv: Cluster, v: seq<Vec>, i: nat, k: nat)
    requires Covers(b, cv) && InRange(ParentLocal(cv)) && |v| == Nodes(cv) && i < |v|
    requires forall j | 0 <= j < |v| :: RowRight(b, cv, v, j)
    requires Walk(ParentLocal(cv), i, k + 1) == -1
    ensures v[i] == Along(b, cv, i, k)
    decreases k
  {
    hide RootVec, LinkVec, Add;
    var p := ParentLocal(cv)[i];
    assert RowRight(b, cv, v, i);
    if p != -1 && k > 0 {
      RowsArePaths(b, cv, v, p, k - 1);
    }
  }

  // With parents before children they are the reconstruction that reads an orphan as a root.
  lemma {:induction false} RowsAreRecon(b: Books, cv: Cluster, v: seq<Vec>, i: nat)
    requires Covers(b, cv) && Ordered(cv) && |v| == Nodes(cv) && i < |v|
    requires forall j | 0 <= j < |v| :: RowRight(b, cv, v, j)
    ensures v[i] == Recon(b, cv, i, RootOnly)
    decreases i
  {
    hide RootVec, LinkVec, Add;
    assert RowRight(b, cv, v, i);
    if ParentLocal(cv)[i] != -1 {
      RowsAreRecon(b, cv, v, ParentLocal(cv)[i]);
    }
  }

  // In a finished table every row is the reconstruction along its path: no path is longer than the
  // number of nodes.
  lemma FinishedRows(b: Books, cv: Cluster, v: seq<Vec>, order: seq<nat>, i: nat)
    requires Covers(b, cv) && InRange(ParentLocal(cv)) && |v| == Nodes(cv) && i < |v|
    requires forall j | 0 <= j < |v| :: RowRight(b, cv, v, j)
    requires ParentsFirst(ParentLocal(cv), order) && |order| == Nodes(cv) && i in order
    ensures v[i] == Along(b, cv, i, Nodes(cv))
    ensures Ordered(cv) ==> v[i] == Recon(b, cv, i, RootOnly)
  {
    hide RowRight, Along, ParentsFirst, RootIndex, LinkIndex;
    var par := ParentLocal(cv);
    var pos :| 0 <= pos < |order| && order[pos] == i;
    OrderedEnds(par, order, pos);
    var n: nat :| n <= pos + 1 && Walk(par, i, n) == -1;
    EndedStays(par, i, n, Nodes(cv) + 1);
    RowsArePaths(b, cv, v, i, Nodes(cv));
    if Ordered(cv) {
      RowsAreRecon(b, cv, v, i);
    }
  }

  // ---- The DP ----

  // The stack is a parent chain that starts at start and continues at cur.
  ghost predicate Chain(par: seq<int>, stack: seq<nat>, start: nat, cur: int) {
    && (forall k | 0 <= k < |stack| :: stack[k] < |par|)
    && (forall k | 0 <= k < |stack| - 1 :: par[stack[k]] == stack[k + 1])
    && (stack == [] ==> cur == start)
    && (stack != [] ==> stack[0] == start && par[stack[|stack| - 1]] == cur)
  }

  lemma {:induction false} ChainWalk(par: seq<int>, stack: seq<nat>, start: nat, cur: int, k: nat)
    requires InRange(par) && Chain(par, stack, start, cur) && k < |stack|
    ensures Walk(par, stack[k], |stack| - k) == cur
    decreases |stack| - k
  {
    if k == |stack| - 1 {
      assert Walk(par, par[stack[k]], 0) == cur;
    } else {
      ChainWalk(par, stack, start, cur, k + 1);
    }
  }

  // Each node is unseen, on the stack or finished, as its mark says.
  ghost predicate Marks(state: seq<nat>, stack: seq<nat>, order: seq<nat>) {
    forall i | 0 <= i < |state| ::
      && (state[i] == UNSEEN || state[i] == ON_STACK || state[i] == DONE)
      && (state[i] == ON_STACK <==> i in stack) && (state[i] == DONE <==> i in order)
  }

  lemma PushMarks(state: seq<nat>, stack: seq<nat>, order: seq<nat>, node: nat)
    requires Marks(state, stack, order) && node < |state| && state[node] == UNSEEN && Distinct(stack)
    ensures Marks(state[node := ON_STACK], stack + [node], order) && Distinct(stack + [node])
  {
    assert forall k | 0 <= k < |stack| :: stack[k] in stack;
  }

  lemma PopMarks(state: seq<nat>, stack: seq<nat>, order: seq<nat>, node: nat)
    requires Marks(state, stack, order) && stack != [] && node == stack[|stack| - 1] < |state| && Distinct(stack)
    requires Distinct(order)
    ensures node !in order
    ensures Marks(state[node := DONE], stack[..|stack| - 1], order + [node])
    ensures Distinct(stack[..|stack| - 1]) && Distinct(order + [node])
  {
    assert node in stack;
    assert stack == stack[..|stack| - 1] + [node];
    assert forall k | 0 <= k < |order| :: order[k] in order;
  }

  lemma PopChain(par: seq<int>, stack: seq<nat>, order: seq<nat>, start: nat, cur: int, node: nat)
    requires stack != [] && node == stack[|stack| - 1] && Chain(par, stack, start, cur)
    requires ParentsFirst(par, order) && (cur == -1 || cur in order)
    ensures node < |par| && par[node] == cur && Chain(par, stack[..|stack| - 1], start, node)
    ensures ParentsFirst(par, order + [node])
  {
    var next := order + [node];
    forall k | 0 <= k < |next|
      ensures next[k] < |par| && (par[next[k]] == -1 || par[next[k]] in next[..k])
    {
      assert next[..k] == order[..k];
    }
  }

  ghost predicate RowsRight(b: Books, cv: Cluster, v: seq<Vec>, order: seq<nat>)
    requires Covers(b, cv) && |v| == Nodes(cv)
  {
    forall i | 0 <= i < |v| && i in order :: RowRight(b, cv, v, i)
  }

  // Writing an unfinished node's row leaves the finished rows right and finishes the node.
  lemma FinishRow(b: Books, cv: Cluster, v: seq<Vec>, order: seq<nat>, node: nat, row: Vec)
    requires Covers(b, cv) && InRange(ParentLocal(cv)) && |v| == Nodes(cv) && node < |v|
    requires ParentsFirst(ParentLocal(cv), order) && node !in order && RowsRight(b, cv, v, order)
    requires RowRight(b, cv, v[node := row], node)
    ensures RowsRight(b, cv, v[node := row], order + [node])
  {
    hide RootVec, LinkVec, Add;
    forall i | 0 <= i < |v| && i in order
      ensures RowRight(b, cv, v[node := row], i)
    {
      assert RowRight(b, cv, v, i);
      var k :| 0 <= k < |order| && order[k] == i;
      assert ParentLocal(cv)[i] == -1 || ParentLocal(cv)[i] in order[..k];
    }
  }

  ghost function Unseen(state: seq<nat>): set<nat> {
    set i | 0 <= i < |state| && state[i] == UNSEEN
  }

  lemma UnseenLess(state: seq<nat>, at: nat)
    requires at < |state| && state[at] == UNSEEN
    ensures Unseen(state[at := ON_STACK]) < Unseen(state)
  {
    assert at in Unseen(state) && at !in Unseen(state[at := ON_STACK]);
  }

  // A chain that comes back to one of its own nodes is a cycle.
  lemma StackCycle(par: seq<int>, stack: seq<nat>, start: nat, at: nat)
    requires InRange(par) && Chain(par, stack, start, at) && at in stack
    ensures Cyclic(par)
  {
    var k :| 0 <= k < |stack| && stack[k] == at;
    ChainWalk(par, stack, start, at, k);
    assert OnCycle(par, at, |stack| - k);
  }

  lemma ChainMore(par: seq<int>, stack: seq<nat>, start: nat, at: nat)
    requires Chain(par, stack, start, at) && at < |par|
    ensures Chain(par, stack + [at], start, par[at])
  {
  }

  class ReconDp {
    const b: Books
    const cv: Cluster
    const par: seq<int>
    const state: array<nat>
    const v: array<Vec>
    var stack: seq<nat>
    ghost var order: seq<nat>   // finished nodes, in the order they were computed

    ghost predicate Sound()
      reads this, state, v
    {
      && Covers(b, cv) && par == ParentLocal(cv) && InRange(par)
      && state.Length == v.Length == Nodes(cv)
      && Distinct(order) && ParentsFirst(par, order)
      && Distinct(stack) && (forall k | 0 <= k < |stack| :: stack[k] < Nodes(cv))
      && Marks(state[..], stack, order) && RowsRight(b, cv, v[..], order)
    }

    // The node below the stack is finished, or the path has ended.
    ghost predicate Ready(start: nat, cur: int)
      reads this
    {
      Chain(par, stack, start, cur) && (cur == -1 || cur in order)
    }

    constructor (books: Books, cluster: Cluster)
      requires Covers(books, cluster) && InRange(ParentLocal(cluster))
      ensures Sound() && stack == [] && order == [] && b == books && cv == cluster && fresh(state) && fresh(v)
    {
      b, cv, par := books, cluster, ParentLocal(cluster);
      state := new nat[cluster.nVirt + cluster.nReal](_ => UNSEEN);
      v := new Vec[cluster.nVirt + cluster.nReal](_ => Zero(books.d));
      stack, order := [], [];
    }

    // Puts an unseen node on the stack.
    method Mark(at: nat)
      requires Sound() && at < state.Length && state[at] == UNSEEN
      modifies `stack, state
      ensures Sound() && stack == old(stack) + [at] && state[..] == old(state[..])[at := ON_STACK]
    {
      hide RowRight, RootVec, LinkVec, RowsRight, Covers, ParentsFirst, ParentLocal, Marks, Distinct;
      ghost var marks := state[..];
      PushMarks(marks, stack, order, at);
      state[at] := ON_STACK;
      assert state[..] == marks[at := ON_STACK];
      stack := stack + [at];
    }

    lemma MarksMean(i: nat)
      requires Sound() && i < state.Length
      ensures state[i] == UNSEEN || state[i] == ON_STACK || state[i] == DONE
      ensures (state[i] == ON_STACK <==> i in stack) && (state[i] == DONE <==> i in order)
    {
      hide RowRight, RowsRight, Covers, ParentsFirst, ParentLocal, Distinct;
      assert state[..][i] == state[i];
    }

    // Descends along the parents, marking nodes, until a finished node or the end of the path.
    method Descend(start: nat) returns (ok: bool, ghost cur: int)
      requires Sound() && stack == [] && start < state.Length
      modifies `stack, state
      ensures !ok ==> Cyclic(par)
      ensures ok ==> Sound() && order == old(order) && Ready(start, cur)
    {
      hide Marks, RowRight, RowsRight, Covers, ParentsFirst, ParentLocal, Distinct;
      cur := start;
      var at: int := start;
      while true
        invariant 0 <= at < state.Length && cur == at && Sound() && order == old(order)
        invariant Chain(par, stack, start, cur)
        decreases Unseen(state[..])
      {
        MarksMean(at);
        if state[at] == DONE {
          break;
        }
        if state[at] == ON_STACK {
          StackCycle(par, stack, start, at);
          return false, cur;
        }
        UnseenLess(state[..], at);
        ChainMore(par, stack, start, at);
        Mark(at);
        var p := par[at];
        cur := p;
        if p < 0 {
          break;
        }
        at := p;
      }
      ok := true;
    }

    // Unwinds the stack, each node after its parent.
    method Unwind(ghost start: nat, ghost cur: int)
      requires Sound() && Ready(start, cur)
      modifies this, state, v
      ensures Sound() && stack == [] && old(order) <= order
      ensures forall x | x in old(stack) :: x in order
    {
      hide Sound, Ready;
      ghost var next := cur;
      ghost var all := stack;
      while stack != []
        invariant Sound() && Ready(start, next) && old(order) <= order
        invariant stack <= all && forall x | x in all :: x in stack || x in order
        decreases |stack|
      {
        ghost var top := stack;
        next := FinishTop(start, next);
        assert forall x | x in top :: x in stack || x == next;
      }
    }

    // Computes a node's row from its finished parent's.
    method WriteRow(node: nat)
      requires Covers(b, cv) && par == ParentLocal(cv) && InRange(par) && v.Length == Nodes(cv) && node < Nodes(cv)
      requires ParentsFirst(par, order) && node !in order && RowsRight(b, cv, v[..], order)
      requires par[node] == -1 || par[node] in order
      modifies v
      ensures RowsRight(b, cv, v[..], order + [node])
    {
      hide RootVec, LinkVec, RowsRight, Add, ParentsFirst, Covers;
      ghost var rows := v[..];
      var p := par[node];
      if p < 0 {
        v[node] := RootVec(b, cv, node);
      } else {
        FinishedSize(b, cv, rows, order, p);
        v[node] := Add(v[p], LinkVec(b, cv, node));
      }
      assert v[..] == rows[node := v[node]];
      FinishRow(b, cv, rows, order, node, v[node]);
    }

    // Pops one node and computes its row from its parent's.
    method FinishTop(ghost start: nat, ghost cur: int) returns (ghost next: int)
      requires Sound() && stack != [] && Ready(start, cur)
      modifies this, state, v
      ensures Sound() && Ready(start, next) && stack + [next] == old(stack) && order == old(order) + [next]
    {
      hide Marks, RowsRight, Chain, ParentsFirst, Distinct, Covers, RowRight;
      var node := stack[|stack| - 1];
      ghost var marks := state[..];
      PopMarks(marks, stack, order, node);
      PopChain(par, stack, order, start, cur, node);
      WriteRow(node);
      state[node] := DONE;
      assert state[..] == marks[node := DONE];
      stack, order, next := stack[..|stack| - 1], order + [node], node;
    }

    // Fails exactly when the walk from start meets its own marks.
    method ComputeNode(start: nat) returns (ok: bool)
      requires Sound() && stack == [] && start < state.Length
      modifies this, state, v
      ensures !ok ==> Cyclic(par)
      ensures ok ==> Sound() && stack == [] && old(order) <= order && start in order
    {
      hide Sound;
      ghost var cur;
      ok, cur := Descend(start);
      if ok {
        ghost var found := stack;
        Unwind(start, cur);
        assert found != [] ==> found[0] in order;
      }
    }

    lemma AllFinished()
      requires Sound() && stack == [] && forall i | 0 <= i < state.Length :: i in order
      ensures !Cyclic(par) && |order| == Nodes(cv) && Distinct(order) && ParentsFirst(par, order)
      ensures forall i | 0 <= i < Nodes(cv) :: state[i] == DONE && RowRight(b, cv, v[..], i)
    {
      hide Covers, RowRight;
      OrderExcludesCycles(par, order);
      AllOnce(order, state.Length);
    }

    lemma AllPaths()
      requires Sound() && ParentsFirst(par, order) && |order| == Nodes(cv)
      requires forall i | 0 <= i < Nodes(cv) :: i in order && RowRight(b, cv, v[..], i)
      ensures forall i | 0 <= i < Nodes(cv) :: v[i] == Along(b, cv, i, Nodes(cv))
      ensures Ordered(cv) ==> forall i | 0 <= i < Nodes(cv) :: v[i] == Recon(b, cv, i, RootOnly)
    {
      hide RowRight, Along, Recon, Marks, RowsRight, ParentsFirst, Distinct;
      forall i | 0 <= i < Nodes(cv)
        ensures v[i] == Along(b, cv, i, Nodes(cv)) && (Ordered(cv) ==> v[i] == Recon(b, cv, i, RootOnly))
      {
        FinishedRows(b, cv, v[..], order, i);
      }
    }

    // Fails exactly when the parents form a cycle; otherwise every node is finished once, after
    // its parent, and holds the reconstruction along its path.
    method ComputeAll() returns (ok: bool)
      requires Sound() && stack == []
      modifies this, state, v
      ensures ok <==> !Cyclic(par)
      ensures ok ==> Sound() && stack == []
      ensures ok ==> forall i | 0 <= i < Nodes(cv) :: state[i] == DONE && RowRight(b, cv, v[..], i)
      ensures ok ==> forall i | 0 <= i < Nodes(cv) :: v[i] == Along(b, cv, i, Nodes(cv))
      ensures ok && Ordered(cv) ==> forall i | 0 <= i < Nodes(cv) :: v[i] == Recon(b, cv, i, RootOnly)
      ensures ok ==> |order| == Nodes(cv) && Distinct(order) && ParentsFirst(par, order)
    {
      hide Marks, RowRight, RowsRight, Covers, ParentsFirst, ParentLocal, Distinct, Along, Recon, Ordered;
      for local := 0 to state.Length
        invariant Sound() && stack == [] && forall i | 0 <= i < local :: i in order
      {
        MarksMean(local);
        if state[local] != DONE {
          ghost var before := order;
          ok := ComputeNode(local);
          if !ok {
            return;
          }
          assert forall x | x in before :: x in order;
        }
      }
      AllFinished();
      AllPaths();
      ok := true;
    }
  }

  lemma FinishedSize(b: Books, cv: Cluster, v: seq<Vec>, order: seq<nat>, p: nat)
    requires Covers(b, cv) && |v| == Nodes(cv) && p < |v| && p in order && RowsRight(b, cv, v, order)
    ensures |v[p]| == b.d
  {
    assert RowRight(b, cv, v, p);
  }

  // A repetition-free list of exactly the numbers below n has n entries.
  lemma {:induction false} AllOnce(order: seq<nat>, n: nat)
    requires Distinct(order) && (forall i | 0 <= i < n :: i in order) && (forall k | 0 <= k < |order| :: order[k] < n)
    ensures |order| == n
  {
    if n > 0 {
      assert n - 1 in order;
      var k :| 0 <= k < |order| && order[k] == n - 1;
      var rest := order[..k] + order[k + 1..];
      forall i | 0 <= i < n - 1
        ensures i in rest
      {
        assert i in order;
        var j :| 0 <= j < |order| && order[j] == i;
        assert rest[if j < k then j else j - 1] == i;
      }
      assert forall j | 0 <= j < |rest| :: rest[j] == order[if j < k then j else j + 1];
      AllOnce(rest, n - 1);
    }
  }
}
