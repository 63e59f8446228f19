// Re-ranking candidates by exact distance: a one-result fast path, a select-then-sort path, and a
// plain sort, all giving the same order on (distance, id).
module Rerank {
  import opened Sorting
  import opened TopK

  const NONE: int := -1

  // The candidates that name a base vector, with their distances.
  function Valid(cands: seq<int>, nBase: nat, dist: nat -> real): (r: seq<Scored>)
    ensures |r| <= |cands|
  {
    if cands == [] then []
    else
      var c := cands[|cands| - 1];
      Valid(cands[..|cands| - 1], nBase, dist) + (if 0 <= c < nBase then [Scored(dist(c), c)] else [])
  }

  // The first k ids of a ranking, filled up with -1.
  function Filled(ranked: seq<Scored>, k: nat): (r: seq<int>)
    ensures |r| == k && forall i | 0 <= i < k :: r[i] == if i < |ranked| then ranked[i].id else NONE
  {
    seq(k, i requires 0 <= i < k => if i < |ranked| then ranked[i].id else NONE)
  }

  function Reranked(cands: seq<int>, nBase: nat, dist: nat -> real, k: nat): (r: seq<int>)
    ensures |r| == k
  {
    Filled(Ranked(Valid(cands, nBase, dist)), k)
  }

  // Asking for fewer results gives a prefix.
  lemma RerankPrefix(cands: seq<int>, nBase: nat, dist: nat -> real, k: nat, k': nat)
    requires k <= k'
    ensures Reranked(cands, nBase, dist, k) == Reranked(cands, nBase, dist, k')[..k]
  {
  }

  lemma NoneValid(nBase: nat, dist: nat -> real)
    ensures Valid([], nBase, dist) == []
  {
  }

  lemma ValidLast(cands: seq<int>, nBase: nat, dist: nat -> real, e: Scored)
    requires cands != []
    ensures var n := |cands| - 1;
      multiset(Valid(cands, nBase, dist))[e] == multiset(Valid(cands[..n], nBase, dist))[e]
        + (if cands[n] == e.id && e.id < nBase && e.dist == dist(e.id) then 1 else 0)
  {
  }

  lemma {:induction false} ValidCount(cands: seq<int>, nBase: nat, dist: nat -> real, e: Scored)
    ensures multiset(Valid(cands, nBase, dist))[e]
         == if e.id < nBase && e.dist == dist(e.id) then multiset(cands)[e.id] else 0
  {
    NoneValid(nBase, dist);
    if cands != [] {
      var n := |cands| - 1;
      hide Valid;
      ValidCount(cands[..n], nBase, dist, e);
      ValidLast(cands, nBase, dist, e);
      assert cands == cands[..n] + [cands[n]];
    }
  }

  // The order in which the candidates arrive does not matter.
  lemma RerankAnyOrder(a: seq<int>, b: seq<int>, nBase: nat, dist: nat -> real, k: nat)
    requires multiset(a) == multiset(b)
    ensures Reranked(a, nBase, dist, k) == Reranked(b, nBase, dist, k)
  {
    forall e: Scored
      ensures multiset(Valid(a, nBase, dist))[e] == multiset(Valid(b, nBase, dist))[e]
    {
      ValidCount(a, nBase, dist, e);
      ValidCount(b, nBase, dist, e);
    }
    TotalOrder();
    SortIgnoresOrder(ByDistThenIdLess, Valid(a, nBase, dist), Valid(b, nBase, dist));
  }

  // How many candidates name a base vector, repetitions included.
  function IsValid(cands: seq<int>, nBase: nat): int -> bool {
    (i: int) => 0 <= i < |cands| && 0 <= cands[i] < nBase
  }

  lemma {:induction false} ValidTally(cands: seq<int>, nBase: nat, dist: nat -> real, n: nat)
    requires n <= |cands|
    ensures |Valid(cands[..n], nBase, dist)| == Tally(IsValid(cands, nBase), n)
  {
    if n > 0 {
      ValidTally(cands, nBase, dist, n - 1);
      assert cands[..n][..n - 1] == cands[..n - 1];
    }
  }

  lemma ValidSize(cands: seq<int>, nBase: nat, dist: nat -> real)
    ensures |Valid(cands, nBase, dist)| == |set i | 0 <= i < |cands| && 0 <= cands[i] < nBase|
  {
    assert cands[..|cands|] == cands;
    ValidTally(cands, nBase, dist, |cands|);
    TallyIsSize(IsValid(cands, nBase), |cands|);
    assert (set i | 0 <= i < |cands| && IsValid(cands, nBase)(i)) == set i | 0 <= i < |cands| && 0 <= cands[i] < nBase;
  }

  lemma ValidMember(cands: seq<int>, nBase: nat, dist: nat -> real, e: Scored)
    ensures e in Valid(cands, nBase, dist) <==> e.id in cands && e.id < nBase && e.dist == dist(e.id)
  {
    ValidCount(cands, nBase, dist, e);
    assert e in Valid(cands, nBase, dist) <==> multiset(Valid(cands, nBase, dist))[e] > 0;
    assert e.id in cands <==> multiset(cands)[e.id] > 0;
  }

  // The result in its own terms: as many ids as asked for and available, ascending by distance, ties by
  // id, then -1.
  lemma RerankMeans(cands: seq<int>, nBase: nat, dist: nat -> real, k: nat)
    ensures var r, n := Reranked(cands, nBase, dist, k), |set i | 0 <= i < |cands| && 0 <= cands[i] < nBase|;
      && (forall i | 0 <= i < k :: if i < n then 0 <= r[i] < nBase && r[i] in cands else r[i] == -1)
      && (forall i, j | 0 <= i < j < k && j < n ::
            dist(r[i]) < dist(r[j]) || (dist(r[i]) == dist(r[j]) && r[i] <= r[j]))
  {
    hide Valid, Sort, Ranked;
    var v := Valid(cands, nBase, dist);
    var ranked := Ranked(v);
    ValidSize(cands, nBase, dist);
    RankedSame(v);
    RankedAscends(v);
    forall i | 0 <= i < |ranked|
      ensures ranked[i].id in cands && ranked[i].id < nBase && ranked[i].dist == dist(ranked[i].id)
    {
      assert ranked[i] in ranked;
      ValidMember(cands, nBase, dist, ranked[i]);
    }
  }

  // A valid candidate that is left out comes after every id listed, and there is then no filler.
  lemma LeftOutLater(cands: seq<int>, nBase: nat, dist: nat -> real, k: nat, c: nat, i: nat)
    requires c in cands && c < nBase && c !in Reranked(cands, nBase, dist, k) && i < k
    ensures var r := Reranked(cands, nBase, dist, k);
      0 <= r[i] < nBase && (dist(r[i]) < dist(c) || (dist(r[i]) == dist(c) && r[i] <= c))
  {
    hide Valid, Sort, Ranked;
    var v, r := Valid(cands, nBase, dist), Reranked(cands, nBase, dist, k);
    var ranked := Ranked(v);
    RankedSame(v);
    RankedAscends(v);
    ValidMember(cands, nBase, dist, Scored(dist(c), c));
    var p :| 0 <= p < |ranked| && ranked[p] == Scored(dist(c), c);
    assert forall j | 0 <= j < k && j < |ranked| :: r[j] == ranked[j].id && r[j] in r;
    assert i < p && ranked[i] in ranked;
    ValidMember(cands, nBase, dist, ranked[i]);
  }

  lemma RankedAscends(s: seq<Scored>)
    ensures forall i, j | 0 <= i < j < |s| :: var a, b := Ranked(s)[i], Ranked(s)[j];
      a.dist < b.dist || (a.dist == b.dist && a.id <= b.id)
  {
    TotalOrder();
    SortSorts(ByDistThenIdLess, s);
  }

  // ---- The fast path ----

  // best comes before, or is, everything in s.
  ghost predicate Least(s: seq<Scored>, best: Scored) {
    best in s && forall x | x in s :: !ByDistThenIdLess(x, best)
  }

  lemma LeastIsFirst(s: seq<Scored>, best: Scored)
    requires Least(s, best)
    ensures s != [] && Ranked(s)[0] == best
  {
    TotalOrder();
    SortSorts(ByDistThenIdLess, s);
    RankedSame(s);
    assert best in Ranked(s) && Ranked(s)[0] in Ranked(s);
    var p :| 0 <= p < |Ranked(s)| && Ranked(s)[p] == best;
    assert p > 0 ==> !ByDistThenIdLess(Ranked(s)[p], Ranked(s)[0]);
  }

  datatype BestSoFar = Infinity | Found(best: Scored)

  method FastPath(cands: seq<int>, nBase: nat, dist: nat -> real) returns (id: int)
    ensures [id] == Reranked(cands, nBase, dist, 1)
  {
    var best := Infinity;
    for rank := 0 to |cands|
      invariant best.Infinity? ==> Valid(cands[..rank], nBase, dist) == []
      invariant best.Found? ==> Least(Valid(cands[..rank], nBase, dist), best.best)
    {
      assert cands[..rank + 1][..rank] == cands[..rank];
      var c := cands[rank];
      if 0 <= c < nBase {
        var d := dist(c);
        LeastStep(Valid(cands[..rank], nBase, dist), best, Scored(d, c));
        if best.Infinity? || d < best.best.dist || (d == best.best.dist && c < best.best.id) {
          best := Found(Scored(d, c));
        }
      }
    }
    assert cands[..|cands|] == cands;
    if best.Found? {
      LeastIsFirst(Valid(cands, nBase, dist), best.best);
    }
    id := if best.Found? then best.best.id else NONE;
  }

  lemma LeastStep(s: seq<Scored>, best: BestSoFar, x: Scored)
    requires best.Infinity? ==> s == []
    requires best.Found? ==> Least(s, best.best)
    ensures best.Infinity? || ByDistThenIdLess(x, best.best) ==> Least(s + [x], x)
    ensures best.Found? && !ByDistThenIdLess(x, best.best) ==> Least(s + [x], best.best)
  {
    var r := s + [x];
    assert forall y :: y in r <==> y in s || y == x;
  }

  // ---- Select, then sort ----

  // std::nth_element by its contract: nothing from position k on comes before anything in front.
  method NthElement(s: seq<Scored>, k: nat) returns (r: seq<Scored>)
    requires k < |s|
    ensures |r| == |s| && Splits(r[..k], r[k..], s)
  {
    r := Ranked(s);
    TotalOrder();
    SortSorts(ByDistThenIdLess, s);
    SortPermutes(ByDistThenIdLess, s);
    assert r == r[..k] + r[k..];
    forall a, b | a in r[..k] && b in r[k..]
      ensures !ByDistThenIdLess(b, a)
    {
      var i :| 0 <= i < k && r[..k][i] == a;
      var j :| 0 <= j < |r| - k && r[k..][j] == b;
      assert r[i] == a && r[k + j] == b;
    }
  }

  method ExactRerank(cands: seq<int>, nBase: nat, dist: nat -> real, finalK: nat) returns (result: seq<int>)
    ensures result == Reranked(cands, nBase, dist, finalK)
  {
    if finalK == 1 {
      var id := FastPath(cands, nBase, dist);
      return [id];
    }
    var scored: seq<Scored> := [];
    for rank := 0 to |cands|
      invariant scored == Valid(cands[..rank], nBase, dist)
    {
      assert cands[..rank + 1][..rank] == cands[..rank];
      var id := cands[rank];
      if 0 <= id < nBase {
        scored := scored + [Scored(dist(id), id)];
      }
    }
    assert cands[..|cands|] == cands;
    ghost var all := scored;
    if |scored| > finalK {
      var part := NthElement(scored, finalK);
      scored := part[..finalK];
      SplitsFirst(scored, part[finalK..], all);
    }
    scored := Ranked(scored);
    result := FillIds(scored, finalK);
    assert result == Filled(Ranked(all), finalK);
  }

  // The ids in order, then -1 up to length k.
  method FillIds(ranked: seq<Scored>, k: nat) returns (result: seq<int>)
    ensures result == Filled(ranked, k)
  {
    result := [];
    var rank := 0;
    while rank < |ranked| && rank < k
      invariant rank == |result| <= k && forall i | 0 <= i < rank :: i < |ranked| && result[i] == ranked[i].id
    {
      result := result + [ranked[rank].id];
      rank := rank + 1;
    }
    while rank < k
      invariant |result| == rank <= k && (rank < k ==> rank >= |ranked|)
      invariant forall i | 0 <= i < rank :: result[i] == if i < |ranked| then ranked[i].id else NONE
    {
      result := result + [NONE];
      rank := rank + 1;
    }
  }

  // ---- The oracle's plain sort ----

  // Drops negative ids and sorts the rest; the reader supplies a vector for every id kept, so they
  // are all below nBase.
  method OracleRerank(adc: seq<int>, nBase: nat, dist: nat -> real) returns (result: seq<int>)
    requires forall i | 0 <= i < |adc| :: adc[i] < nBase
    ensures result == Reranked(adc, nBase, dist, |adc|)
  {
    var scored: seq<Scored> := [];
    for i := 0 to |adc|
      invariant scored == Valid(adc[..i], nBase, dist)
    {
      assert adc[..i + 1][..i] == adc[..i];
      if adc[i] >= 0 {
        scored := scored + [Scored(dist(adc[i]), adc[i])];
      }
    }
    assert adc[..|adc|] == adc;
    result := FillIds(Ranked(scored), |adc|);
  }
}
