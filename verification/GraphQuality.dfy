// Subtree sizes of a cluster's parent forest by one reverse pass, and the root components.
module GraphQuality {
  import opened Sorting

  // Virtual locals 0..nVirt, then one local per real node. A parent is a 1-based local; 0 is none,
  // and one past the last local is ignored.
  datatype Forest = Forest(nVirt: nat, nReal: nat, parent: seq<nat>)

  function Locals(g: Forest): nat {
    g.nVirt + g.nReal
  }

  predicate Linked(g: Forest, l: nat)
    requires |g.parent| == g.nReal && l < Locals(g)
  {
    l >= g.nVirt && 1 <= g.parent[l - g.nVirt] <= Locals(g)
  }

  function Up(g: Forest, l: nat): nat
    requires |g.parent| == g.nReal && l < Locals(g) && Linked(g, l)
  {
    g.parent[l - g.nVirt] - 1
  }

  // Parents come before their children.
  ghost predicate Ordered(g: Forest) {
    |g.parent| == g.nReal && forall l | 0 <= l < Locals(g) && Linked(g, l) :: Up(g, l) < l
  }

  // ---- Ancestor paths ----

  // x is reached from l over the links of the real nodes from k on; with k == 0, x is on the
  // ancestor-or-self path of l.
  predicate Reaches(g: Forest, k: nat, l: nat, x: nat)
    requires Ordered(g) && l < Locals(g)
    decreases l
  {
    l == x || (l >= g.nVirt + k && Linked(g, l) && Reaches(g, k, Up(g, l), x))
  }

  // Real nodes among the first n whose path reaches x.
  function Below(g: Forest, k: nat, x: nat, n: nat): (c: nat)
    requires Ordered(g) && n <= g.nReal
    ensures c <= n
  {
    if n == 0 then 0 else Below(g, k, x, n - 1) + (if Reaches(g, k, g.nVirt + n - 1, x) then 1 else 0)
  }

  // A path over parent links from l up to x.
  ghost predicate IsPath(g: Forest, path: seq<nat>, l: nat, x: nat) {
    && |path| >= 1 && path[0] == l && path[|path| - 1] == x
    && forall k | 0 <= k < |path| - 1 :: LinkedTo(g, path[k], path[k + 1])
  }

  ghost predicate HasPath(g: Forest, l: nat, x: nat) {
    exists path :: IsPath(g, path, l, x)
  }

  // The i-th real node is at or below x.
  ghost predicate RealUnder(g: Forest, i: nat, x: nat) {
    HasPath(g, g.nVirt + i, x)
  }

  ghost predicate LinkedTo(g: Forest, l: nat, p: nat) {
    l >= g.nVirt && l - g.nVirt < |g.parent| && g.parent[l - g.nVirt] == p + 1 && p < Locals(g)
  }

  // x is reached exactly when some path of parent links leads to it.
  lemma {:induction false} ReachesIffPath(g: Forest, l: nat, x: nat)
    requires Ordered(g) && l < Locals(g)
    ensures Reaches(g, 0, l, x) <==> HasPath(g, l, x)
    decreases l
  {
    if l == x {
      assert IsPath(g, [l], l, x);
    } else {
      if Linked(g, l) {
        ReachesIffPath(g, Up(g, l), x);
        if Reaches(g, 0, Up(g, l), x) {
          var path :| IsPath(g, path, Up(g, l), x);
          LongerPath(g, path, l, x);
        }
      }
      if HasPath(g, l, x) {
        var path :| IsPath(g, path, l, x);
        ShorterPath(g, path, l, x);
      }
    }
  }

  lemma LongerPath(g: Forest, path: seq<nat>, l: nat, x: nat)
    requires |g.parent| == g.nReal && l < Locals(g) && Linked(g, l) && IsPath(g, path, Up(g, l), x)
    ensures IsPath(g, [l] + path, l, x)
  {
    var longer := [l] + path;
    forall k | 0 <= k < |longer| - 1
      ensures LinkedTo(g, longer[k], longer[k + 1])
    {
      assert k > 0 ==> longer[k] == path[k - 1] && longer[k + 1] == path[k];
    }
  }

  lemma ShorterPath(g: Forest, path: seq<nat>, l: nat, x: nat)
    requires |g.parent| == g.nReal && l < Locals(g) && l != x && IsPath(g, path, l, x)
    ensures Linked(g, l) && IsPath(g, path[1..], Up(g, l), x)
  {
    assert LinkedTo(g, path[0], path[1]);
    var shorter := path[1..];
    forall k | 0 <= k < |shorter| - 1
      ensures LinkedTo(g, shorter[k], shorter[k + 1])
    {
      assert shorter[k] == path[k + 1] && shorter[k + 1] == path[k + 2];
      assert LinkedTo(g, path[k + 1], path[k + 2]);
    }
  }

  // The real nodes counted are those with a path to x.
  lemma BelowIsCount(g: Forest, x: nat, n: nat)
    requires Ordered(g) && n <= g.nReal
    ensures Below(g, 0, x, n) == |set i | 0 <= i < n && RealUnder(g, i, x)|
  {
    BelowTally(g, x, n);
    TallyIsSize(IsUnder(g, x), n);
    assert (set i | 0 <= i < n && IsUnder(g, x)(i)) == set i | 0 <= i < n && RealUnder(g, i, x);
  }

  ghost function IsUnder(g: Forest, x: nat): int -> bool {
    (i: int) => i >= 0 && RealUnder(g, i, x)
  }

  lemma {:induction false} BelowTally(g: Forest, x: nat, n: nat)
    requires Ordered(g) && n <= g.nReal
    ensures Below(g, 0, x, n) == Tally(IsUnder(g, x), n)
  {
    hide Reaches, HasPath, RealUnder, Ordered;
    if n > 0 {
      BelowTally(g, x, n - 1);
      UnderIffReaches(g, n - 1, x);
    }
  }

  lemma UnderIffReaches(g: Forest, i: nat, x: nat)
    requires Ordered(g) && i < g.nReal
    ensures Reaches(g, 0, g.nVirt + i, x) <==> RealUnder(g, i, x)
  {
    ReachesIffPath(g, g.nVirt + i, x);
  }

  function IsChild(g: Forest, x: nat): int -> bool {
    (i: int) => 0 <= i < |g.parent| && g.parent[i] == x + 1
  }

  lemma {:induction false} ChildrenTally(g: Forest, x: nat, n: nat)
    requires |g.parent| == g.nReal && n <= g.nReal && x < Locals(g)
    ensures Children(g, x, n) == Tally(IsChild(g, x), n)
  {
    if n > 0 {
      ChildrenTally(g, x, n - 1);
    }
  }

  lemma ChildrenAreCount(g: Forest, x: nat, n: nat)
    requires |g.parent| == g.nReal && n <= g.nReal && x < Locals(g)
    ensures Children(g, x, n) == |set i | 0 <= i < n && g.parent[i] == x + 1|
  {
    ChildrenTally(g, x, n);
    TallyIsSize(IsChild(g, x), n);
    assert (set i | 0 <= i < n && IsChild(g, x)(i)) == set i | 0 <= i < n && g.parent[i] == x + 1;
  }

  // Opening the link of node c == nVirt + k lets its whole subtree reach its parent, which none of
  // it reached before.
  lemma {:induction false} OpenLink(g: Forest, k: nat, c: nat, l: nat, x: nat)
    requires Ordered(g) && k < g.nReal && c == g.nVirt + k && l < Locals(g)
    ensures var via := Linked(g, c) && x == Up(g, c) && Reaches(g, k + 1, l, c);
      && (Reaches(g, k, l, x) <==> Reaches(g, k + 1, l, x) || via) && !(Reaches(g, k + 1, l, x) && via)
    decreases l
  {
    if l > c && Linked(g, l) {
      OpenLink(g, k, c, Up(g, l), x);
    }
  }

  lemma {:induction false} BelowStep(g: Forest, k: nat, c: nat, x: nat, n: nat)
    requires Ordered(g) && k < g.nReal && c == g.nVirt + k && n <= g.nReal
    ensures Below(g, k, x, n)
         == Below(g, k + 1, x, n) + (if Linked(g, c) && x == Up(g, c) then Below(g, k + 1, c, n) else 0)
  {
    if n > 0 {
      BelowStep(g, k, c, x, n - 1);
      OpenLink(g, k, c, g.nVirt + n - 1, x);
    }
  }

  lemma {:induction false} BelowStart(g: Forest, x: nat, n: nat)
    requires Ordered(g) && n <= g.nReal
    ensures Below(g, g.nReal, x, n) == if g.nVirt <= x < g.nVirt + n then 1 else 0
  {
    if n > 0 {
      BelowStart(g, x, n - 1);
    }
  }

  // Children of x among the first n real nodes.
  function Children(g: Forest, x: nat, n: nat): nat
    requires |g.parent| == g.nReal && n <= g.nReal
  {
    if n == 0 then 0
    else Children(g, x, n - 1) + (if Linked(g, g.nVirt + n - 1) && Up(g, g.nVirt + n - 1) == x then 1 else 0)
  }

  // The forward pass: children are counted and every real node starts with itself.
  method CountChildren(g: Forest) returns (degree: array<nat>, subtree: array<nat>)
    requires Ordered(g)
    ensures fresh(degree) && fresh(subtree) && degree.Length == subtree.Length == Locals(g)
    ensures forall x | 0 <= x < Locals(g) :: degree[x] == |set i | 0 <= i < g.nReal && g.parent[i] == x + 1|
    ensures forall x | 0 <= x < Locals(g) :: subtree[x] == if x < g.nVirt then 0 else 1
  {
    degree, subtree := new nat[Locals(g)](_ => 0), new nat[Locals(g)](_ => 0);
    for i := 0 to g.nReal
      invariant forall x | 0 <= x < Locals(g) :: degree[x] == Children(g, x, i)
      invariant forall x | 0 <= x < Locals(g) :: subtree[x] == if g.nVirt <= x < g.nVirt + i then 1 else 0
    {
      subtree[g.nVirt + i] := 1;
      if 1 <= g.parent[i] <= Locals(g) {
        assert Linked(g, g.nVirt + i);
        degree[g.parent[i] - 1] := degree[g.parent[i] - 1] + 1;
      }
    }
    forall x | 0 <= x < Locals(g)
      ensures degree[x] == |set i | 0 <= i < g.nReal && g.parent[i] == x + 1|
    {
      ChildrenAreCount(g, x, g.nReal);
    }
  }

  // The reverse pass adds each node's size to its parent's. It ends with the number of real nodes
  // at or below each local.
  method AccumulateSubtrees(g: Forest, subtree: array<nat>)
    requires Ordered(g) && subtree.Length == Locals(g)
    requires forall x | 0 <= x < Locals(g) :: subtree[x] == if x < g.nVirt then 0 else 1
    modifies subtree
    ensures forall x | 0 <= x < Locals(g) :: subtree[x] == Below(g, 0, x, g.nReal)
    ensures forall x | 0 <= x < Locals(g) :: subtree[x] == |set i | 0 <= i < g.nReal && RealUnder(g, i, x)|
  {
    hide Reaches, Below, RealUnder;
    forall x | 0 <= x < Locals(g)
      ensures subtree[x] == Below(g, g.nReal, x, g.nReal)
    {
      BelowStart(g, x, g.nReal);
    }
    var i: nat := g.nReal;
    while i > 0
      invariant i <= g.nReal && forall x | 0 <= x < Locals(g) :: subtree[x] == Below(g, i, x, g.nReal)
    {
      i := i - 1;
      var child := g.nVirt + i;
      forall x | 0 <= x < Locals(g)
        ensures Below(g, i, x, g.nReal) == Below(g, i + 1, x, g.nReal)
             + (if Linked(g, child) && x == Up(g, child) then Below(g, i + 1, child, g.nReal) else 0)
      {
        BelowStep(g, i, child, x, g.nReal);
      }
      if 1 <= g.parent[i] <= Locals(g) {
        assert Linked(g, child) && Up(g, child) == g.parent[i] - 1 < child;
        subtree[g.parent[i] - 1] := subtree[g.parent[i] - 1] + subtree[child];
      }
    }
    forall x | 0 <= x < Locals(g)
      ensures Below(g, 0, x, g.nReal) == |set i | 0 <= i < g.nReal && RealUnder(g, i, x)|
    {
      BelowIsCount(g, x, g.nReal);
    }
  }

  // ---- Root components ----

  // What is recorded as a component: the virtual nodes, and the real nodes with parent 0.
  predicate Component(g: Forest, x: nat)
    requires |g.parent| == g.nReal && x < Locals(g)
  {
    x < g.nVirt || g.parent[x - g.nVirt] == 0
  }

  // Sum of the subtree sizes over the components, or over all unlinked nodes, below n.
  function ComponentSum(g: Forest, n: nat, m: nat): nat
    requires Ordered(g) && n <= Locals(g) && m <= g.nReal
  {
    if n == 0 then 0
    else ComponentSum(g, n - 1, m) + (if Component(g, n - 1) then Below(g, 0, n - 1, m) else 0)
  }

  function UnlinkedSum(g: Forest, n: nat, m: nat): nat
    requires Ordered(g) && n <= Locals(g) && m <= g.nReal
  {
    if n == 0 then 0
    else UnlinkedSum(g, n - 1, m) + (if Linked(g, n - 1) then 0 else Below(g, 0, n - 1, m))
  }

  // The unlinked nodes below n that l reaches.
  function EndsAt(g: Forest, l: nat, n: nat): nat
    requires Ordered(g) && l < Locals(g) && n <= Locals(g)
  {
    if n == 0 then 0
    else EndsAt(g, l, n - 1) + (if !Linked(g, n - 1) && Reaches(g, 0, l, n - 1) then 1 else 0)
  }

  lemma {:induction false} EndsSelf(g: Forest, l: nat, n: nat)
    requires Ordered(g) && l < Locals(g) && n <= Locals(g) && !Linked(g, l)
    ensures EndsAt(g, l, n) == if l < n then 1 else 0
  {
    if n > 0 {
      EndsSelf(g, l, n - 1);
    }
  }

  lemma {:induction false} EndsUp(g: Forest, l: nat, n: nat)
    requires Ordered(g) && l < Locals(g) && n <= Locals(g) && Linked(g, l)
    ensures EndsAt(g, l, n) == EndsAt(g, Up(g, l), n)
  {
    if n > 0 {
      EndsUp(g, l, n - 1);
    }
  }

  // Every path ends in exactly one unlinked node.
  lemma {:induction false} OneEnd(g: Forest, l: nat)
    requires Ordered(g) && l < Locals(g)
    ensures EndsAt(g, l, Locals(g)) == 1
    decreases l
  {
    if Linked(g, l) {
      EndsUp(g, l, Locals(g));
      OneEnd(g, Up(g, l));
    } else {
      EndsSelf(g, l, Locals(g));
    }
  }

  lemma {:induction false} UnlinkedStep(g: Forest, n: nat, m: nat)
    requires Ordered(g) && n <= Locals(g) && 0 < m <= g.nReal
    ensures UnlinkedSum(g, n, m) == UnlinkedSum(g, n, m - 1) + EndsAt(g, g.nVirt + m - 1, n)
  {
    if n > 0 {
      UnlinkedStep(g, n - 1, m);
    }
  }

  lemma {:induction false} UnlinkedNone(g: Forest, n: nat)
    requires Ordered(g) && n <= Locals(g)
    ensures UnlinkedSum(g, n, 0) == 0
  {
    if n > 0 {
      UnlinkedNone(g, n - 1);
    }
  }

  lemma {:induction false} UnlinkedTotal(g: Forest, m: nat)
    requires Ordered(g) && m <= g.nReal
    ensures UnlinkedSum(g, Locals(g), m) == m
  {
    if m == 0 {
      UnlinkedNone(g, Locals(g));
    } else {
      UnlinkedTotal(g, m - 1);
      UnlinkedStep(g, Locals(g), m);
      OneEnd(g, g.nVirt + m - 1);
    }
  }

  // Every non-zero parent below n is a local.
  ghost predicate InRange(g: Forest, n: nat)
    requires |g.parent| == g.nReal && n <= Locals(g)
  {
    forall x | 0 <= x < n :: Linked(g, x) || Component(g, x)
  }

  lemma {:induction false} SelfCounted(g: Forest, i: nat, n: nat)
    requires Ordered(g) && i < n <= g.nReal
    ensures Below(g, 0, g.nVirt + i, n) >= 1
  {
    if i < n - 1 {
      SelfCounted(g, i, n - 1);
    }
  }

  lemma {:induction false} ComponentGap(g: Forest, n: nat)
    requires Ordered(g) && n <= Locals(g)
    ensures ComponentSum(g, n, g.nReal) <= UnlinkedSum(g, n, g.nReal)
    ensures ComponentSum(g, n, g.nReal) == UnlinkedSum(g, n, g.nReal) <==> InRange(g, n)
  {
    if n > 0 {
      ComponentGap(g, n - 1);
      assert InRange(g, n) <==> InRange(g, n - 1) && (Linked(g, n - 1) || Component(g, n - 1));
      if !Linked(g, n - 1) && !Component(g, n - 1) {
        SelfCounted(g, n - 1 - g.nVirt, g.nReal);
      }
    }
  }

  lemma RangeOfParents(g: Forest)
    requires |g.parent| == g.nReal
    ensures InRange(g, Locals(g)) <==> forall i | 0 <= i < g.nReal :: g.parent[i] <= g.nVirt + g.nReal
  {
    if InRange(g, Locals(g)) {
      forall i | 0 <= i < g.nReal
        ensures g.parent[i] <= g.nVirt + g.nReal
      {
        assert Linked(g, g.nVirt + i) || Component(g, g.nVirt + i);
      }
    }
  }

  // The recorded components account for every real node exactly when no non-zero parent is out
  // of range; otherwise the subtrees of the stray nodes are missing.
  lemma ComponentsCoverIff(g: Forest)
    requires Ordered(g)
    ensures ComponentSum(g, Locals(g), g.nReal) <= g.nReal
    ensures ComponentSum(g, Locals(g), g.nReal) == g.nReal
       <==> forall i | 0 <= i < g.nReal :: g.parent[i] <= g.nVirt + g.nReal
  {
    RangeOfParents(g);
    UnlinkedTotal(g, g.nReal);
    ComponentGap(g, Locals(g));
  }

  // The recorded sizes in order; a component without real nodes is dropped.
  function ComponentSizes(g: Forest, n: nat): seq<nat>
    requires Ordered(g) && n <= Locals(g)
  {
    if n == 0 then []
    else
      ComponentSizes(g, n - 1)
      + (if Component(g, n - 1) && Below(g, 0, n - 1, g.nReal) > 0 then [Below(g, 0, n - 1, g.nReal)] else [])
  }

  // Dropping the empty ones loses nothing.
  lemma {:induction false} SizesSum(g: Forest, n: nat)
    requires Ordered(g) && n <= Locals(g)
    ensures SumOf(ComponentSizes(g, n)) == ComponentSum(g, n, g.nReal)
  {
    hide Below, Component;
    if n > 0 {
      SizesSum(g, n - 1);
      SumMore(ComponentSizes(g, n - 1), Below(g, 0, n - 1, g.nReal));
      assert ComponentSizes(g, n - 1) + [] == ComponentSizes(g, n - 1);
    }
  }

  // Records the components, virtual ones first.
  method RootComponents(g: Forest, subtree: array<nat>) returns (sizes: seq<nat>)
    requires Ordered(g) && subtree.Length == Locals(g)
    requires forall x | 0 <= x < Locals(g) :: subtree[x] == Below(g, 0, x, g.nReal)
    ensures sizes == ComponentSizes(g, Locals(g))
    ensures SumOf(sizes) == ComponentSum(g, Locals(g), g.nReal)
  {
    hide Reaches, Below;
    sizes := [];
    for local := 0 to g.nVirt
      invariant sizes == ComponentSizes(g, local)
    {
      if subtree[local] > 0 {
        sizes := sizes + [subtree[local]];
      }
    }
    for i := 0 to g.nReal
      invariant sizes == ComponentSizes(g, g.nVirt + i)
    {
      if g.parent[i] == 0 {
        SelfCounted(g, i, g.nReal);
        sizes := sizes + [subtree[g.nVirt + i]];
      }
    }
    SizesSum(g, Locals(g));
  }

  function SumOf(s: seq<nat>): nat {
    if s == [] then 0 else SumOf(s[..|s| - 1]) + s[|s| - 1]
  }

  lemma SumMore(s: seq<nat>, x: nat)
    ensures SumOf(s + [x]) == SumOf(s) + x
  {
    assert (s + [x])[..|s|] == s;
  }
}
