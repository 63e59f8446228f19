// Bounded-heap selection of the k nearest candidates under the total order on (distance, id).
module TopK {
  import opened Sorting
  import opened Vectors

  datatype Scored = Scored(dist: real, id: nat)

  predicate ByDistThenIdLess(a: Scored, b: Scored) {
    if a.dist != b.dist then a.dist < b.dist else a.id < b.id
  }

  predicate Greater(a: Scored, b: Scored) {
    ByDistThenIdLess(b, a)
  }

  lemma TotalOrder()
    ensures StrictTotal(ByDistThenIdLess) && StrictTotal(Greater)
  {
  }

  function Ranked(s: seq<Scored>): (r: seq<Scored>)
    ensures |r| == |s|
  {
    SortPermutes(ByDistThenIdLess, s);
    Sort(ByDistThenIdLess, s)
  }

  // ---- The standard heap algorithms, by contract: the greatest entry is in front ----

  ghost predicate IsHeap(h: seq<Scored>) {
    forall i | 0 < i < |h| :: !ByDistThenIdLess(h[Parent(i)], h[i])
  }

  lemma {:induction false} FrontIsGreatest(h: seq<Scored>, k: nat)
    requires IsHeap(h) && k < |h|
    ensures !ByDistThenIdLess(h[0], h[k])
    decreases k
  {
    if k > 0 {
      FrontIsGreatest(h, Parent(k));
    }
  }

  lemma DescendingIsHeap(s: seq<Scored>)
    ensures IsHeap(Sort(Greater, s)) && multiset(Sort(Greater, s)) == multiset(s)
  {
    TotalOrder();
    SortSorts(Greater, s);
    SortPermutes(Greater, s);
  }

  method MakeHeap(h: seq<Scored>) returns (r: seq<Scored>)
    ensures IsHeap(r) && multiset(r) == multiset(h) && |r| == |h|
  {
    DescendingIsHeap(h);
    SortPermutes(Greater, h);
    r := Sort(Greater, h);
  }

  method PopHeap(h: seq<Scored>) returns (r: seq<Scored>)
    requires IsHeap(h) && h != []
    ensures |r| == |h| && r[|h| - 1] == h[0] && IsHeap(r[..|h| - 1]) && multiset(r) == multiset(h)
  {
    DescendingIsHeap(h[1..]);
    SortPermutes(Greater, h[1..]);
    assert h == [h[0]] + h[1..];
    r := Sort(Greater, h[1..]) + [h[0]];
    assert r[..|h| - 1] == Sort(Greater, h[1..]);
  }

  method PushHeap(h: seq<Scored>) returns (r: seq<Scored>)
    requires h != [] && IsHeap(h[..|h| - 1])
    ensures IsHeap(r) && multiset(r) == multiset(h) && |r| == |h|
  {
    r := MakeHeap(h);
  }

  // Only sound on a heap.
  method SortHeap(h: seq<Scored>) returns (r: seq<Scored>)
    requires IsHeap(h)
    ensures r == Ranked(h)
  {
    r := Ranked(h);
  }

  // ---- What the scan keeps ----

  // Nothing in rest comes before anything in kept.
  ghost predicate Ahead(kept: seq<Scored>, rest: seq<Scored>) {
    forall a, b | a in kept && b in rest :: !ByDistThenIdLess(b, a)
  }

  // kept and rest make up seen, and kept is the lower part.
  ghost predicate Splits(kept: seq<Scored>, rest: seq<Scored>, seen: seq<Scored>) {
    multiset(kept) + multiset(rest) == multiset(seen) && Ahead(kept, rest)
  }

  lemma SameMembers(a: seq<Scored>, b: seq<Scored>)
    requires multiset(a) == multiset(b)
    ensures forall x :: x in a <==> x in b
  {
    assert forall x :: x in a <==> x in multiset(a);
    assert forall x :: x in b <==> x in multiset(b);
  }

  lemma SplitsFirst(kept: seq<Scored>, rest: seq<Scored>, seen: seq<Scored>)
    requires Splits(kept, rest, seen)
    ensures |kept| <= |seen| && Ranked(seen)[..|kept|] == Ranked(kept)
  {
    TotalOrder();
    var a, b := Ranked(kept), Ranked(rest);
    SortSorts(ByDistThenIdLess, kept);
    SortSorts(ByDistThenIdLess, rest);
    SortSorts(ByDistThenIdLess, seen);
    SortPermutes(ByDistThenIdLess, kept);
    SortPermutes(ByDistThenIdLess, rest);
    SortPermutes(ByDistThenIdLess, seen);
    SameMembers(a, kept);
    SameMembers(b, rest);
    JoinSorted(a, b);
    SortedUnique(ByDistThenIdLess, a + b, Ranked(seen));
    assert (a + b)[..|a|] == a;
    assert |kept| + |rest| == |multiset(kept) + multiset(rest)| == |seen|;
  }

  lemma JoinSorted(a: seq<Scored>, b: seq<Scored>)
    requires Sorted(ByDistThenIdLess, a) && Sorted(ByDistThenIdLess, b) && Ahead(a, b)
    ensures Sorted(ByDistThenIdLess, a + b)
  {
    var r := a + b;
    forall i, j | 0 <= i < j < |r|
      ensures !ByDistThenIdLess(r[j], r[i])
    {
      assert j >= |a| ==> b[j - |a|] in b && r[j] == b[j - |a|];
      assert i < |a| ==> a[i] in a && r[i] == a[i];
    }
  }

  lemma SplitsSkip(kept: seq<Scored>, rest: seq<Scored>, seen: seq<Scored>, x: Scored)
    requires Splits(kept, rest, seen) && IsHeap(kept) && kept != [] && !ByDistThenIdLess(x, kept[0])
    ensures Splits(kept, rest + [x], seen + [x])
  {
    assert multiset(rest + [x]) == multiset(rest) + multiset{x};
    assert multiset(seen + [x]) == multiset(seen) + multiset{x};
    forall a, b | a in kept && b in rest + [x]
      ensures !ByDistThenIdLess(b, a)
    {
      var k :| 0 <= k < |kept| && kept[k] == a;
      FrontIsGreatest(kept, k);
    }
  }

  lemma SplitsReplace(kept: seq<Scored>, rest: seq<Scored>, seen: seq<Scored>, x: Scored, kept': seq<Scored>)
    requires Splits(kept, rest, seen) && IsHeap(kept) && kept != [] && ByDistThenIdLess(x, kept[0])
    requires multiset(kept') == multiset(kept) - multiset{kept[0]} + multiset{x}
    ensures Splits(kept', rest + [kept[0]], seen + [x])
  {
    hide Ahead, IsHeap;
    var front := kept[0];
    assert front in multiset(kept);
    assert multiset(rest + [front]) == multiset(rest) + multiset{front};
    assert multiset(seen + [x]) == multiset(seen) + multiset{x};
    AheadReplace(kept, rest, x, kept');
  }

  lemma AheadReplace(kept: seq<Scored>, rest: seq<Scored>, x: Scored, kept': seq<Scored>)
    requires Ahead(kept, rest) && IsHeap(kept) && kept != [] && ByDistThenIdLess(x, kept[0])
    requires multiset(kept') == multiset(kept) - multiset{kept[0]} + multiset{x}
    ensures Ahead(kept', rest + [kept[0]])
  {
    forall a, b | a in kept' && b in rest + [kept[0]]
      ensures !ByDistThenIdLess(b, a)
    {
      ReplacedMember(kept, x, kept', a);
      assert kept[0] in kept && (b in rest || b == kept[0]);
      assert b in rest ==> !ByDistThenIdLess(b, kept[0]);
      if a != x {
        var k :| 0 <= k < |kept| && kept[k] == a;
        FrontIsGreatest(kept, k);
      }
    }
  }

  lemma ReplacedMember(kept: seq<Scored>, x: Scored, kept': seq<Scored>, a: Scored)
    requires kept != [] && multiset(kept') == multiset(kept) - multiset{kept[0]} + multiset{x} && a in kept'
    ensures a == x || a in kept
  {
    assert a in multiset(kept');
    assert a != x ==> a in multiset(kept);
  }

  // ---- The scan ----

  // Candidates with their distances, in scan order.
  function Scores(cands: seq<nat>, dist: nat -> real): (r: seq<Scored>)
    ensures |r| == |cands| && forall t | 0 <= t < |r| :: r[t] == Scored(dist(cands[t]), cands[t])
  {
    seq(|cands|, t requires 0 <= t < |cands| => Scored(dist(cands[t]), cands[t]))
  }

  // The k least candidates in ascending order.
  function Nearest(cands: seq<nat>, dist: nat -> real, k: nat): (r: seq<Scored>)
    requires k <= |cands|
    ensures |r| == k
  {
    Ranked(Scores(cands, dist))[..k]
  }

  // The heap after some candidates: all of them in scan order while there are fewer than k, from
  // then on a heap of the k least.
  ghost predicate HeapHolds(heap: seq<Scored>, rest: seq<Scored>, seen: seq<Scored>, k: nat) {
    if |seen| < k then heap == seen && rest == []
    else |heap| == k && IsHeap(heap) && Splits(heap, rest, seen)
  }

  lemma ScoresMore(cands: seq<nat>, dist: nat -> real, t: nat)
    requires t < |cands|
    ensures Scores(cands[..t + 1], dist) == Scores(cands[..t], dist) + [Scored(dist(cands[t]), cands[t])]
    ensures Scores(cands[..0], dist) == [] && Scores(cands[..|cands|], dist) == Scores(cands, dist)
  {
    assert cands[..|cands|] == cands;
  }

  // Takes in one candidate.
  method Offer(heap: seq<Scored>, x: Scored, k: nat, ghost rest: seq<Scored>, ghost seen: seq<Scored>)
    returns (heap': seq<Scored>, ghost rest': seq<Scored>)
    requires k > 0 && HeapHolds(heap, rest, seen, k)
    ensures HeapHolds(heap', rest', seen + [x], k)
  {
    hide Ahead, IsHeap;
    heap', rest' := heap, rest;
    if |heap| < k {
      heap' := heap + [x];
      if |heap'| == k {
        AllKept(seen + [x]);
        heap' := MakeHeap(heap');
        KeptAnyOrder(seen + [x], heap', []);
      }
      return;
    }
    if x.dist > heap[0].dist || (x.dist == heap[0].dist && x.id >= heap[0].id) {
      SplitsSkip(heap, rest, seen, x);
      rest' := rest + [x];
      return;
    }
    heap' := PopHeap(heap);
    heap' := heap'[k - 1 := x];
    assert multiset(heap') == multiset(heap) - multiset{heap[0]} + multiset{x};
    ghost var popped := heap';
    assert heap'[..k - 1] == popped[..k - 1];
    heap' := PushHeap(heap');
    SplitsReplace(heap, rest, seen, x, heap');
    rest' := rest + [heap[0]];
  }

  lemma AllKept(seen: seq<Scored>)
    ensures Splits(seen, [], seen)
  {
  }

  lemma KeptAnyOrder(seen: seq<Scored>, heap: seq<Scored>, rest: seq<Scored>)
    requires Splits(seen, rest, seen) && multiset(heap) == multiset(seen)
    ensures Splits(heap, rest, seen)
  {
    SameMembers(heap, seen);
  }

  lemma NoneSeen(k: nat)
    ensures HeapHolds([], [], [], k)
  {
  }

  lemma HeapAtEnd(heap: seq<Scored>, rest: seq<Scored>, seen: seq<Scored>, k: nat)
    requires HeapHolds(heap, rest, seen, k) && k <= |seen|
    ensures IsHeap(heap) && |heap| == k && Ranked(heap) == Ranked(seen)[..k]
  {
    SplitsFirst(heap, rest, seen);
  }

  // ---- Order and subsets ----

  // How often a candidate is scored.
  lemma {:induction false} ScoreCount(cands: seq<nat>, dist: nat -> real, e: Scored)
    ensures multiset(Scores(cands, dist))[e] == if e.dist == dist(e.id) then multiset(cands)[e.id] else 0
  {
    if cands != [] {
      var n := |cands| - 1;
      ScoreCount(cands[..n], dist, e);
      assert cands == cands[..n] + [cands[n]];
      assert Scores(cands, dist) == Scores(cands[..n], dist) + [Scored(dist(cands[n]), cands[n])];
    } else {
      assert Scores(cands, dist) == [];
    }
  }

  lemma ScoresWithin(a: seq<nat>, b: seq<nat>, dist: nat -> real)
    requires multiset(a) <= multiset(b)
    ensures multiset(Scores(a, dist)) <= multiset(Scores(b, dist))
  {
    forall e: Scored
      ensures multiset(Scores(a, dist))[e] <= multiset(Scores(b, dist))[e]
    {
      ScoreCount(a, dist, e);
      ScoreCount(b, dist, e);
    }
  }

  // The result does not depend on the order of the candidates.
  lemma AnyScanOrder(a: seq<nat>, b: seq<nat>, dist: nat -> real, k: nat)
    requires multiset(a) == multiset(b) && k <= |a|
    ensures |a| == |b| && Nearest(a, dist, k) == Nearest(b, dist, k)
  {
    assert |a| == |multiset(a)| == |multiset(b)| == |b|;
    ScoresWithin(a, b, dist);
    ScoresWithin(b, a, dist);
    TotalOrder();
    SortIgnoresOrder(ByDistThenIdLess, Scores(a, dist), Scores(b, dist));
  }

  // Position by position, more candidates never rank worse.
  lemma FewerRankNoBetter(a: seq<Scored>, b: seq<Scored>, j: nat)
    requires multiset(a) <= multiset(b) && j < |a|
    ensures |a| <= |b| && !ByDistThenIdLess(Ranked(a)[j], Ranked(b)[j])
  {
    TotalOrder();
    SortSorts(ByDistThenIdLess, a);
    SortSorts(ByDistThenIdLess, b);
    SortPermutes(ByDistThenIdLess, a);
    SortPermutes(ByDistThenIdLess, b);
    CardinalityWithin(multiset(a), multiset(b));
    assert |multiset(a)| == |a| && |multiset(b)| == |b|;
    PositionArgument(Ranked(a), Ranked(b), j);
  }

  lemma {:induction false} CardinalityWithin(a: multiset<Scored>, b: multiset<Scored>)
    requires a <= b
    ensures |a| <= |b|
  {
    assert b == a + (b - a);
  }

  lemma PositionArgument(a: seq<Scored>, b: seq<Scored>, j: nat)
    requires Sorted(ByDistThenIdLess, a) && Sorted(ByDistThenIdLess, b) && multiset(a) <= multiset(b)
    requires j < |a| <= |b|
    ensures !ByDistThenIdLess(a[j], b[j])
  {
    hide ByDistThenIdLess;
    if ByDistThenIdLess(a[j], b[j]) {
      forall e | e in multiset(a[..j + 1])
        ensures multiset(a[..j + 1])[e] <= multiset(b[..j])[e]
      {
        var i :| 0 <= i < |a[..j + 1]| && a[..j + 1][i] == e;
        NotBeyond(a, b, i, j);
        CountBelow(a, b, j, e);
      }
      CardinalityWithin(multiset(a[..j + 1]), multiset(b[..j]));
      assert false;
    }
  }

  lemma CountBelow(a: seq<Scored>, b: seq<Scored>, j: nat, e: Scored)
    requires multiset(a) <= multiset(b) && j < |a| && j <= |b| && e !in b[j..]
    ensures multiset(a[..j + 1])[e] <= multiset(b[..j])[e]
  {
    assert a == a[..j + 1] + a[j + 1..] && b == b[..j] + b[j..];
    assert e !in multiset(b[j..]);
    assert multiset(a)[e] <= multiset(b)[e];
  }

  lemma NotBeyond(a: seq<Scored>, b: seq<Scored>, i: nat, j: nat)
    requires Sorted(ByDistThenIdLess, a) && Sorted(ByDistThenIdLess, b)
    requires i <= j < |a| && j < |b| && ByDistThenIdLess(a[j], b[j])
    ensures a[i] !in b[j..]
  {
    TotalOrder();
    forall p | j <= p < |b|
      ensures b[p] != a[i]
    {
      assert i < j ==> !ByDistThenIdLess(a[j], a[i]);
      assert j < p ==> !ByDistThenIdLess(b[p], b[j]);
    }
  }

  lemma RankedMember(s: seq<Scored>, j: nat)
    requires j < |s|
    ensures Ranked(s)[j] in s
  {
    SortPermutes(ByDistThenIdLess, s);
    SameMembers(Ranked(s), s);
    assert Ranked(s)[j] in Ranked(s);
  }

  lemma TwiceListed(s: seq<Scored>, j: nat, p: nat)
    requires j < p < |s| && s[j] == s[p]
    ensures multiset(s)[s[j]] >= 2
  {
    assert s == s[..p] + s[p..] && s[..p][j] in s[..p] && s[p..][0] in s[p..];
    assert multiset(s) == multiset(s[..p]) + multiset(s[p..]);
  }

  // Without repetitions the ranking strictly ascends.
  lemma RankedStrict(s: seq<Scored>, j: nat, p: nat)
    requires j < p < |s| && forall e :: multiset(s)[e] <= 1
    ensures ByDistThenIdLess(Ranked(s)[j], Ranked(s)[p])
  {
    TotalOrder();
    SortSorts(ByDistThenIdLess, s);
    SortPermutes(ByDistThenIdLess, s);
    if Ranked(s)[j] == Ranked(s)[p] {
      TwiceListed(Ranked(s), j, p);
    }
  }

  // What is among the k best of all is among the k best of any part that holds it.
  lemma HitIsKept(a: seq<Scored>, b: seq<Scored>, k: nat, j: nat)
    requires multiset(a) <= multiset(b) && j < k <= |a| && k <= |b| && forall e :: multiset(b)[e] <= 1
    requires Ranked(b)[j] in a
    ensures Ranked(b)[j] in Ranked(a)[..k]
  {
    hide Sort, Ranked, ByDistThenIdLess;
    SortPermutes(ByDistThenIdLess, a);
    var e := Ranked(b)[j];
    RankedSame(a);
    var p :| 0 <= p < |a| && Ranked(a)[p] == e;
    if p >= k {
      FewerRankNoBetter(a, b, p);
      RankedStrict(b, j, p);
    }
    assert Ranked(a)[..k][p] == e;
  }

  lemma {:induction false} ListedOnce(cands: seq<nat>, c: nat)
    requires Distinct(cands)
    ensures multiset(cands)[c] <= 1 && (multiset(cands)[c] == 1 <==> c in cands)
  {
    if cands != [] {
      var n := |cands| - 1;
      ListedOnce(cands[..n], c);
      assert cands == cands[..n] + [cands[n]];
    }
  }

  // The result in its own terms: k candidates with their distances, ascending by distance, ties by id, and
  // every candidate left out comes after them.
  lemma NearestMeans(cands: seq<nat>, dist: nat -> real, k: nat)
    requires k <= |cands| && Distinct(cands)
    ensures var r := Nearest(cands, dist, k);
      && (forall j | 0 <= j < k :: r[j].id in cands && r[j].dist == dist(r[j].id))
      && (forall i, j | 0 <= i < j < k :: r[i].dist < r[j].dist || (r[i].dist == r[j].dist && r[i].id < r[j].id))
      && forall c, j | c in cands && (forall i | 0 <= i < k :: r[i].id != c) && 0 <= j < k ::
           r[j].dist < dist(c) || (r[j].dist == dist(c) && r[j].id < c)
  {
    hide Sort, Ranked, Scores;
    var s, r := Scores(cands, dist), Nearest(cands, dist, k);
    forall e: Scored
      ensures multiset(s)[e] <= 1
    {
      ScoreCount(cands, dist, e);
      ListedOnce(cands, e.id);
    }
    RankedSame(s);
    forall j | 0 <= j < k
      ensures r[j].id in cands && r[j].dist == dist(r[j].id)
    {
      RankedMember(s, j);
      var t :| 0 <= t < |s| && s[t] == r[j];
    }
    forall i, j | 0 <= i < j < k
      ensures r[i].dist < r[j].dist || (r[i].dist == r[j].dist && r[i].id < r[j].id)
    {
      RankedStrict(s, i, j);
    }
    forall c, j | c in cands && (forall i | 0 <= i < k :: r[i].id != c) && 0 <= j < k
      ensures r[j].dist < dist(c) || (r[j].dist == dist(c) && r[j].id < c)
    {
      var t :| 0 <= t < |cands| && cands[t] == c;
      assert s[t] in s;
      var p :| 0 <= p < |Ranked(s)| && Ranked(s)[p] == s[t];
      assert forall i | 0 <= i < k :: r[i] == Ranked(s)[i];
      RankedStrict(s, j, p);
    }
  }

  lemma RankedSame(s: seq<Scored>)
    ensures forall e :: e in Ranked(s) <==> e in s
  {
    SortPermutes(ByDistThenIdLess, s);
    SameMembers(Ranked(s), s);
  }

  // ---- The distance of one code ----

  // One row of codes and coefficients per base vector; offsets[cb] starts book cb in the table.
  datatype Base = Base(m: nat, codes: seq<seq<nat>>, coeffs: seq<seq<real>>, norms: seq<real>, offsets: seq<nat>)

  ghost predicate Fits(base: Base, size: nat) {
    && |base.codes| == |base.coeffs| == |base.norms| && |base.offsets| == base.m
    && forall i | 0 <= i < |base.codes| ::
      |base.codes[i]| == |base.coeffs[i]| == base.m
      && forall cb | 0 <= cb < base.m :: base.offsets[cb] + base.codes[i][cb] < size
  }

  // The table entries, or the columns, that row i selects.
  function Picked<T>(base: Base, table: seq<T>, i: nat): (r: seq<T>)
    requires Fits(base, |table|) && i < |base.codes|
    ensures |r| == base.m && forall cb | 0 <= cb < base.m :: r[cb] == table[base.offsets[cb] + base.codes[i][cb]]
  {
    seq(base.m, cb requires 0 <= cb < base.m => table[base.offsets[cb] + base.codes[i][cb]])
  }

  function AdcDistance(base: Base, table: seq<real>, i: nat): real
    requires Fits(base, |table|) && i < |base.codes|
  {
    base.norms[i] - 2.0 * Weighted(base.coeffs[i], Picked(base, table, i))
  }

  lemma TableSum(base: Base, table: seq<real>, i: nat)
    requires Fits(base, |table|) && i < |base.codes|
    ensures Weighted(base.coeffs[i], Picked(base, table, i)) == SumTo((cb: nat) =>
      if cb < base.m then Times(base.coeffs[i][cb], table[base.offsets[cb] + base.codes[i][cb]]) else 0.0, base.m)
  {
    hide Times, Weighted;
    WeightedIsSum(base.coeffs[i], Picked(base, table, i));
    SumAgrees(WeightTerm(base.coeffs[i], Picked(base, table, i)), (cb: nat) =>
      if cb < base.m then Times(base.coeffs[i][cb], table[base.offsets[cb] + base.codes[i][cb]]) else 0.0, base.m);
  }

  method AdcDistanceOne(base: Base, table: seq<real>, i: nat) returns (dist: real)
    requires Fits(base, |table|) && i < |base.codes|
    ensures dist == AdcDistance(base, table, i)
    ensures dist == base.norms[i] - 2.0 * SumTo((cb: nat) =>
      if cb < base.m then Times(base.coeffs[i][cb], table[base.offsets[cb] + base.codes[i][cb]]) else 0.0, base.m)
  {
    hide Times, Weighted;
    TableSum(base, table, i);
    ghost var b, v := base.coeffs[i], Picked(base, table, i);
    WeightedEmpty(b, v);
    var acc := 0.0;
    for cb := 0 to base.m
      invariant acc == Weighted(b[..cb], v[..cb])
    {
      Accumulate(b, v, cb, acc, table[base.offsets[cb] + base.codes[i][cb]]);
      acc := acc + Times(base.coeffs[i][cb], table[base.offsets[cb] + base.codes[i][cb]]);
    }
    assert b[..base.m] == b && v[..base.m] == v;
    dist := base.norms[i] - 2.0 * acc;
  }

  // With the query's inner products as the table and exact norms, the distance is the squared
  // distance to the decoded vector less a constant of the query, so both rank alike.
  lemma AdcRanksLikeDistance(base: Base, cols: seq<Vec>, q: Vec, i: nat)
    requires Columns(cols, |q|) && Fits(base, |cols|) && i < |base.codes|
    requires Columns(Picked(base, cols, i), |q|)
    requires base.norms[i] == Norm2(Combo(|q|, base.coeffs[i], Picked(base, cols, i)))
    ensures AdcDistance(base, Dots(cols, q), i) + Norm2(q)
         == Norm2(Sub(q, Combo(|q|, base.coeffs[i], Picked(base, cols, i))))
  {
    var b, picked := base.coeffs[i], Picked(base, cols, i);
    DotCombo(|q|, b, picked, q);
    assert Dots(picked, q) == Picked(base, Dots(cols, q), i);
    DistanceIdentity(q, Combo(|q|, b, picked));
    DotCommutes(q, Combo(|q|, b, picked));
  }
}
