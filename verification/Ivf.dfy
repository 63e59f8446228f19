// Full scan against inverted-list probing: the same top-k when every list is probed, never a
// better rank when fewer are.
module Ivf {
  import opened Arith
  import opened Sorting
  import opened Vectors
  import opened TopK
  import opened ClusterSelect

  // ---- Inverted lists ----

  // The ids whose layer-0 code is c, ascending, among the first n.
  function ListOf(code0: seq<nat>, c: nat, n: nat): (r: seq<nat>)
    requires n <= |code0|
    ensures |r| <= n
  {
    if n == 0 then [] else ListOf(code0, c, n - 1) + (if code0[n - 1] == c then [n - 1] else [])
  }

  ghost function Count(s: seq<nat>, i: nat): nat {
    multiset(s)[i]
  }

  lemma CountAppend(a: seq<nat>, b: seq<nat>, i: nat)
    ensures Count(a + b, i) == Count(a, i) + Count(b, i)
  {
  }

  lemma CountSmall(x: nat, i: nat)
    ensures Count([x], i) == (if x == i then 1 else 0) && Count([], i) == 0
  {
  }

  lemma {:induction false} ListCount(code0: seq<nat>, c: nat, n: nat, i: nat)
    requires n <= |code0|
    ensures Count(ListOf(code0, c, n), i) == if i < n && code0[i] == c then 1 else 0
  {
    hide Count;
    CountSmall(0, i);
    if n > 0 {
      CountSmall(n - 1, i);
      ListCount(code0, c, n - 1, i);
      CountAppend(ListOf(code0, c, n - 1), if code0[n - 1] == c then [n - 1] else [], i);
    }
  }

  // Pushes every id to the list of its code.
  method BuildLists(code0: seq<nat>, nlist: nat) returns (lists: seq<seq<nat>>)
    requires forall i | 0 <= i < |code0| :: code0[i] < nlist
    ensures |lists| == nlist && forall c | 0 <= c < nlist :: lists[c] == ListOf(code0, c, |code0|)
    ensures forall c: nat, i: nat | c < nlist :: i in lists[c] <==> i < |code0| && code0[i] == c
    ensures forall c, j, k | 0 <= c < nlist && 0 <= j < k < |lists[c]| :: lists[c][j] < lists[c][k]
  {
    lists := seq(nlist, _ => []);
    for i := 0 to |code0|
      invariant |lists| == nlist && forall c | 0 <= c < nlist :: lists[c] == ListOf(code0, c, i)
    {
      var cid := code0[i];
      lists := lists[cid := lists[cid] + [i]];
    }
    forall c | 0 <= c < nlist
      ensures forall i: nat :: i in lists[c] <==> i < |code0| && code0[i] == c
      ensures forall j, k | 0 <= j < k < |lists[c]| :: lists[c][j] < lists[c][k]
    {
      ListMeans(code0, c, |code0|);
    }
  }

  lemma {:induction false} ListMeans(code0: seq<nat>, c: nat, n: nat)
    requires n <= |code0|
    ensures forall i: nat :: i in ListOf(code0, c, n) <==> i < n && code0[i] == c
    ensures forall j, k | 0 <= j < k < |ListOf(code0, c, n)| :: ListOf(code0, c, n)[j] < ListOf(code0, c, n)[k]
  {
    if n > 0 {
      ListMeans(code0, c, n - 1);
      var before := ListOf(code0, c, n - 1);
      assert forall j | 0 <= j < |before| :: before[j] in before;
    }
  }

  // ---- Candidates ----

  // The probed lists, one after the other.
  function Candidates(code0: seq<nat>, probes: seq<nat>): seq<nat> {
    if probes == [] then []
    else
      var p := |probes| - 1;
      Candidates(code0, probes[..p]) + ListOf(code0, probes[p], |code0|)
  }

  // A candidate occurs once when its list is probed, and not otherwise.
  lemma {:induction false} CandidateCount(code0: seq<nat>, probes: seq<nat>, i: nat)
    requires Distinct(probes)
    ensures Count(Candidates(code0, probes), i) == if i < |code0| && code0[i] in probes then 1 else 0
  {
    hide Count, ListOf, Distinct;
    if probes == [] {
      CountSmall(0, i);
    } else {
      var p := |probes| - 1;
      LastDistinct(probes);
      CandidateCount(code0, probes[..p], i);
      ListCount(code0, probes[p], |code0|, i);
      CountAppend(Candidates(code0, probes[..p]), ListOf(code0, probes[p], |code0|), i);
    }
  }

  lemma LastDistinct(probes: seq<nat>)
    requires Distinct(probes) && probes != []
    ensures var p := |probes| - 1; Distinct(probes[..p]) && probes[p] !in probes[..p]
    ensures var p := |probes| - 1; forall c :: c in probes <==> c in probes[..p] || c == probes[p]
  {
  }

  function Range(n: nat): (r: seq<nat>)
    ensures |r| == n && forall i | 0 <= i < n :: r[i] == i
  {
    seq(n, i => i)
  }

  lemma {:induction false} RangeCount(n: nat, i: nat)
    ensures Count(Range(n), i) == if i < n then 1 else 0
  {
    hide Count;
    CountSmall(0, i);
    if n == 0 {
      assert Range(n) == [];
    } else {
      RangeCount(n - 1, i);
      CountSmall(n - 1, i);
      CountAppend(Range(n - 1), [n - 1], i);
      assert Range(n) == Range(n - 1) + [n - 1];
    }
  }

  // Lists partition the ids: probing some gives a part of them, probing all gives them all.
  lemma ProbesWithin(code0: seq<nat>, probes: seq<nat>, more: seq<nat>)
    requires Distinct(probes) && Distinct(more) && forall p | p in probes :: p in more
    ensures multiset(Candidates(code0, probes)) <= multiset(Candidates(code0, more))
  {
    forall i: nat
      ensures multiset(Candidates(code0, probes))[i] <= multiset(Candidates(code0, more))[i]
    {
      CandidateCount(code0, probes, i);
      CandidateCount(code0, more, i);
    }
  }

  lemma AllProbes(code0: seq<nat>, nlist: nat, probes: seq<nat>)
    requires Distinct(probes) && (forall c | 0 <= c < nlist :: c in probes)
    requires forall i | 0 <= i < |code0| :: code0[i] < nlist
    ensures multiset(Candidates(code0, probes)) == multiset(Range(|code0|))
  {
    forall i: nat
      ensures multiset(Candidates(code0, probes))[i] == multiset(Range(|code0|))[i]
    {
      CandidateCount(code0, probes, i);
      RangeCount(|code0|, i);
    }
  }

  lemma SomeProbes(code0: seq<nat>, probes: seq<nat>)
    requires Distinct(probes)
    ensures multiset(Candidates(code0, probes)) <= multiset(Range(|code0|))
  {
    forall i: nat
      ensures multiset(Candidates(code0, probes))[i] <= multiset(Range(|code0|))[i]
    {
      CandidateCount(code0, probes, i);
      RangeCount(|code0|, i);
    }
  }

  // ---- The two searches ----

  function FullResult(n: nat, dist: nat -> real, k: nat): (r: seq<Scored>)
    requires k <= n
    ensures |r| == k
  {
    Nearest(Range(n), dist, k)
  }

  // Falls back to the full scan when the probed lists hold fewer than k ids.
  function IvfResult(code0: seq<nat>, probes: seq<nat>, dist: nat -> real, k: nat): (r: seq<Scored>)
    requires k <= |code0|
    ensures |r| == k
  {
    var cands := Candidates(code0, probes);
    if |cands| < k then FullResult(|code0|, dist, k) else Nearest(cands, dist, k)
  }

  // Probing every list is the full scan, whatever order the lists come in.
  lemma AllProbesIsFullScan(code0: seq<nat>, nlist: nat, probes: seq<nat>, dist: nat -> real, k: nat)
    requires k <= |code0| && Distinct(probes) && (forall c | 0 <= c < nlist :: c in probes)
    requires forall i | 0 <= i < |code0| :: code0[i] < nlist
    ensures IvfResult(code0, probes, dist, k) == FullResult(|code0|, dist, k)
  {
    var cands := Candidates(code0, probes);
    AllProbes(code0, nlist, probes);
    assert |cands| == |multiset(cands)| == |multiset(Range(|code0|))| == |code0|;
    AnyScanOrder(cands, Range(|code0|), dist, k);
  }

  // Probing fewer lists never gives a better entry at any rank.
  lemma ProbesRankNoBetter(code0: seq<nat>, probes: seq<nat>, dist: nat -> real, k: nat, j: nat)
    requires j < k <= |code0| && Distinct(probes)
    ensures !ByDistThenIdLess(IvfResult(code0, probes, dist, k)[j], FullResult(|code0|, dist, k)[j])
  {
    var cands := Candidates(code0, probes);
    if |cands| >= k {
      SomeProbes(code0, probes);
      ScoresWithin(cands, Range(|code0|), dist);
      FewerRankNoBetter(Scores(cands, dist), Scores(Range(|code0|), dist), j);
    }
  }

  // Probing a subset of the lists gives no better entry either, unless it falls back to the full scan
  // while the larger set has enough candidates, but not all ids, and so does not.
  ghost predicate NeverBetter(code0: seq<nat>, probes: seq<nat>, more: seq<nat>, k: nat)
    requires k <= |code0|
  {
    forall dist: nat -> real, j | 0 <= j < k ::
      !ByDistThenIdLess(IvfResult(code0, probes, dist, k)[j], IvfResult(code0, more, dist, k)[j])
  }

  predicate FallbackHarmless(code0: seq<nat>, probes: seq<nat>, more: seq<nat>, k: nat) {
    |Candidates(code0, probes)| >= k || |Candidates(code0, more)| < k || |Candidates(code0, more)| == |code0|
  }

  lemma MoreProbesRankBetter(code0: seq<nat>, probes: seq<nat>, more: seq<nat>, dist: nat -> real, k: nat, j: nat)
    requires j < k <= |code0| && Distinct(probes) && Distinct(more) && forall p | p in probes :: p in more
    requires FallbackHarmless(code0, probes, more, k)
    ensures !ByDistThenIdLess(IvfResult(code0, probes, dist, k)[j], IvfResult(code0, more, dist, k)[j])
  {
    hide Candidates, Distinct;
    var a, b := Candidates(code0, probes), Candidates(code0, more);
    ProbesWithin(code0, probes, more);
    if |a| >= k {
      ScoresWithin(a, b, dist);
      FewerRankNoBetter(Scores(a, dist), Scores(b, dist), j);
    } else if |b| >= k {
      AllFound(code0, more);
      AnyScanOrder(b, Range(|code0|), dist, k);
    }
  }

  lemma AllFound(code0: seq<nat>, probes: seq<nat>)
    requires Distinct(probes) && |Candidates(code0, probes)| == |code0|
    ensures multiset(Candidates(code0, probes)) == multiset(Range(|code0|))
  {
    var a, b := multiset(Candidates(code0, probes)), multiset(Range(|code0|));
    SomeProbes(code0, probes);
    assert b == a + (b - a) && |b| == |a| + |b - a|;
  }

  lemma AllHeld(code0: seq<nat>, probes: seq<nat>)
    requires Distinct(probes) && forall i: nat | i < |code0| :: i in Candidates(code0, probes)
    ensures |Candidates(code0, probes)| == |code0|
  {
    hide Candidates;
    var cands: seq<nat> := Candidates(code0, probes);
    forall i: nat
      ensures multiset(cands)[i] == multiset(Range(|code0|))[i]
    {
      CandidateCount(code0, probes, i);
      RangeCount(|code0|, i);
      assert i in cands <==> i in multiset(cands);
    }
    assert multiset(cands) == multiset(Range(|code0|));
    assert |cands| == |multiset(cands)| && |code0| == |multiset(Range(|code0|))|;
  }

  // An id no probed list holds.
  lemma MissedId(code0: seq<nat>, probes: seq<nat>) returns (x: nat)
    requires Distinct(probes) && |Candidates(code0, probes)| < |code0|
    ensures x < |code0| && x !in Candidates(code0, probes)
  {
    hide Candidates;
    if forall i: nat | i < |code0| :: i in Candidates(code0, probes) {
      AllHeld(code0, probes);
    }
    x :| x < |code0| && x !in Candidates(code0, probes);
  }

  // The distance that favours x alone.
  function Favour(x: nat): nat -> real {
    (i: nat) => if i == x then 0.0 else 1.0
  }

  lemma FavouredFirst(n: nat, x: nat, k: nat)
    requires x < n && 0 < k <= n
    ensures FullResult(n, Favour(x), k)[0].dist == 0.0
  {
    var s := Scores(Range(n), Favour(x));
    TotalOrder();
    SortSorts(ByDistThenIdLess, s);
    SortPermutes(ByDistThenIdLess, s);
    RankedMember(s, 0);
    assert s[x] == Scored(0.0, x) && s[x] in multiset(s);
    var t :| 0 <= t < |Ranked(s)| && Ranked(s)[t] == s[x];
    assert t > 0 ==> !ByDistThenIdLess(Ranked(s)[t], Ranked(s)[0]);
    assert forall e | e in s :: e.dist >= 0.0;
  }

  lemma NotFavoured(cands: seq<nat>, x: nat, k: nat)
    requires x !in cands && 0 < k <= |cands|
    ensures Nearest(cands, Favour(x), k)[0].dist == 1.0
  {
    var s := Scores(cands, Favour(x));
    RankedMember(s, 0);
    var t :| 0 <= t < |s| && s[t] == Ranked(s)[0];
    assert cands[t] in cands;
  }

  // The condition is exact: otherwise some distance makes the fallback beat the larger set.
  lemma MoreProbesIff(code0: seq<nat>, probes: seq<nat>, more: seq<nat>, k: nat)
    requires k <= |code0| && Distinct(probes) && Distinct(more) && forall p | p in probes :: p in more
    ensures NeverBetter(code0, probes, more, k) <==> FallbackHarmless(code0, probes, more, k)
  {
    hide Candidates, Distinct, Favour;
    if FallbackHarmless(code0, probes, more, k) {
      forall dist: nat -> real, j | 0 <= j < k
        ensures !ByDistThenIdLess(IvfResult(code0, probes, dist, k)[j], IvfResult(code0, more, dist, k)[j])
      {
        MoreProbesRankBetter(code0, probes, more, dist, k, j);
      }
    } else {
      SomeProbes(code0, more);
      CandidatesFit(code0, more);
      var x := MissedId(code0, more);
      var dist := Favour(x);
      FavouredFirst(|code0|, x, k);
      NotFavoured(Candidates(code0, more), x, k);
      assert ByDistThenIdLess(IvfResult(code0, probes, dist, k)[0], IvfResult(code0, more, dist, k)[0]);
    }
  }

  lemma CandidatesFit(code0: seq<nat>, probes: seq<nat>)
    requires multiset(Candidates(code0, probes)) <= multiset(Range(|code0|))
    ensures |Candidates(code0, probes)| <= |code0|
  {
    var a, b := multiset(Candidates(code0, probes)), multiset(Range(|code0|));
    assert b == a + (b - a) && |b| == |a| + |b - a|;
  }

  // An id of the full result is found as soon as its own list is probed.
  lemma ProbedHitIsKept(code0: seq<nat>, probes: seq<nat>, dist: nat -> real, k: nat, j: nat)
    requires j < k <= |code0| && Distinct(probes)
    requires var e := FullResult(|code0|, dist, k)[j]; e.id < |code0| && code0[e.id] in probes
    ensures FullResult(|code0|, dist, k)[j] in IvfResult(code0, probes, dist, k)
  {
    hide Candidates, ListOf, Sort;
    var cands := Candidates(code0, probes);
    if |cands| >= k {
      var b := Scores(Range(|code0|), dist);
      SomeProbes(code0, probes);
      ScoresWithin(cands, Range(|code0|), dist);
      ScoredOnce(|code0|, dist);
      RankedMember(b, j);
      HitIsCandidate(code0, probes, dist, Ranked(b)[j]);
      HitIsKept(Scores(cands, dist), b, k, j);
    }
  }

  lemma HitIsCandidate(code0: seq<nat>, probes: seq<nat>, dist: nat -> real, e: Scored)
    requires Distinct(probes) && e.id < |code0| && code0[e.id] in probes && e in Scores(Range(|code0|), dist)
    ensures e in Scores(Candidates(code0, probes), dist)
  {
    ScoreCount(Candidates(code0, probes), dist, e);
    CandidateCount(code0, probes, e.id);
    assert e in multiset(Scores(Candidates(code0, probes), dist));
  }

  lemma ScoredOnce(n: nat, dist: nat -> real)
    ensures forall e :: multiset(Scores(Range(n), dist))[e] <= 1
  {
    forall e: Scored
      ensures multiset(Scores(Range(n), dist))[e] <= 1
    {
      ScoreCount(Range(n), dist, e);
      RangeCount(n, e.id);
    }
  }

  // ---- One query, as the source runs it ----

  function DistOf(base: Base, table: seq<real>): nat -> real
    requires Fits(base, |table|)
  {
    (i: nat) => if i < |base.codes| then AdcDistance(base, table, i) else 0.0
  }

  // AdcScanAllTopK.
  method AdcScanAllTopK(base: Base, table: seq<real>, k: nat) returns (out: seq<Scored>)
    requires Fits(base, |table|) && k <= |base.codes| && (k == 0 ==> base.codes == [])
    ensures out == FullResult(|base.codes|, DistOf(base, table), k)
  {
    out := AdcScanCandidatesTopK(base, table, Range(|base.codes|), k);
  }

  // AdcScanCandidatesTopK: distances are computed one by one as the heap takes them in.
  method AdcScanCandidatesTopK(base: Base, table: seq<real>, candidates: seq<nat>, k: nat) returns (out: seq<Scored>)
    requires Fits(base, |table|) && k <= |candidates| && (k == 0 ==> candidates == [])
    requires forall t | 0 <= t < |candidates| :: candidates[t] < |base.codes|
    ensures out == Nearest(candidates, DistOf(base, table), k)
  {
    hide HeapHolds, IsHeap, Splits, AdcDistance, Fits;
    ghost var f := DistOf(base, table);
    var heap: seq<Scored> := [];
    ghost var rest: seq<Scored> := [];
    NoneSeen(k);
    for t := 0 to |candidates|
      invariant HeapHolds(heap, rest, Scores(candidates[..t], f), k)
    {
      var i := candidates[t];
      var dist := AdcDistanceOne(base, table, i);
      ScoresMore(candidates, f, t);
      heap, rest := Offer(heap, Scored(dist, i), k, rest, Scores(candidates[..t], f));
    }
    assert candidates[..|candidates|] == candidates;
    HeapAtEnd(heap, rest, Scores(candidates, f), k);
    if heap != [] {
      heap := SortHeap(heap);
    }
    out := heap;
  }

  method GatherCandidates(code0: seq<nat>, lists: seq<seq<nat>>, probes: seq<nat>) returns (candidates: seq<nat>)
    requires forall c | 0 <= c < |lists| :: lists[c] == ListOf(code0, c, |code0|)
    requires forall j | 0 <= j < |probes| :: probes[j] < |lists|
    ensures candidates == Candidates(code0, probes)
  {
    candidates := [];
    for j := 0 to |probes|
      invariant candidates == Candidates(code0, probes[..j])
    {
      assert probes[..j + 1][..j] == probes[..j];
      candidates := candidates + lists[probes[j]];
    }
    assert probes[..|probes|] == probes;
  }

  // How many candidates the probed lists hold.
  lemma CandidatesSize(code0: seq<nat>, probes: seq<nat>)
    requires Distinct(probes)
    ensures |Candidates(code0, probes)| == |set i | 0 <= i < |code0| && code0[i] in probes|
    ensures forall i: nat :: i in Candidates(code0, probes) <==> i < |code0| && code0[i] in probes
    ensures Distinct(Candidates(code0, probes))
  {
    hide ListOf, Candidates, Distinct;
    var cands := Candidates(code0, probes);
    forall i: nat
      ensures Count(cands, i) == if i < |code0| && code0[i] in probes then 1 else 0
    {
      CandidateCount(code0, probes, i);
    }
    assert forall i: nat :: i in cands <==> Count(cands, i) > 0;
    OnceIsSet(cands, set i | 0 <= i < |code0| && code0[i] in probes);
  }

  lemma {:induction false} OnceIsSet(s: seq<nat>, ids: set<nat>)
    requires forall i: nat :: Count(s, i) == if i in ids then 1 else 0
    ensures |s| == |ids| && Distinct(s)
  {
    if s == [] {
      assert forall i: nat :: Count(s, i) == 0;
      assert ids == {};
    } else {
      var n := |s| - 1;
      var x := s[n];
      assert s == s[..n] + [x];
      assert Count(s, x) > 0;
      forall i: nat
        ensures Count(s[..n], i) == if i in ids - {x} then 1 else 0
      {
        CountAppend(s[..n], [x], i);
        CountSmall(x, i);
      }
      OnceIsSet(s[..n], ids - {x});
      assert Count(s[..n], x) == 0;
      assert forall j | 0 <= j < n :: s[j] in s[..n];
    }
  }

  lemma CandidatesInRange(code0: seq<nat>, probes: seq<nat>)
    requires Distinct(probes)
    ensures forall t | 0 <= t < |Candidates(code0, probes)| :: Candidates(code0, probes)[t] < |code0|
    ensures Candidates(code0, probes) == [] || |code0| > 0
  {
    hide ListOf, Candidates;
    var cands := Candidates(code0, probes);
    forall t | 0 <= t < |cands|
      ensures cands[t] < |code0|
    {
      CandidateCount(code0, probes, cands[t]);
      assert cands[t] in multiset(cands);
    }
    assert cands == [] || cands[0] < |code0|;
  }

  // A list's score: its centre's inner product with the query over the centre's norm.
  function ListScores(table: seq<real>, invNorm: seq<real>): (r: seq<real>)
    requires |invNorm| <= |table|
    ensures |r| == |invNorm| && forall c | 0 <= c < |r| :: r[c] == Times(table[c], invNorm[c])
  {
    seq(|invNorm|, c requires 0 <= c < |invNorm| => Times(table[c], invNorm[c]))
  }

  // Scores the clusters, probes the best and scans their lists. The result is the top k of the
  // probed lists; no probed list scores below one left out.
  method QueryIvf(base: Base, code0: seq<nat>, lists: seq<seq<nat>>, table: seq<real>, invNorm: seq<real>,
                  nprobe: int, k: nat) returns (out: seq<Scored>, probes: seq<nat>)
    requires Fits(base, |table|) && |code0| == |base.codes| && k <= |code0| && (k == 0 ==> code0 == [])
    requires |invNorm| == |lists| <= |table|
    requires forall c | 0 <= c < |lists| :: lists[c] == ListOf(code0, c, |code0|)
    ensures Distinct(probes) && out == IvfResult(code0, probes, DistOf(base, table), k)
    ensures |probes| == if nprobe <= 0 then 0 else Min(nprobe, |lists|)
    ensures |probes| > 0 ==> TopChoice(probes, ListScores(table, invNorm))
    ensures forall u, c | 0 <= u < |lists| && u !in probes && c in probes ::
      c < |lists| && Times(table[u], invNorm[u]) <= Times(table[c], invNorm[c])
    ensures |set i | 0 <= i < |code0| && code0[i] in probes| < k ==>
      out == Nearest(Range(|code0|), DistOf(base, table), k)
    ensures |set i | 0 <= i < |code0| && code0[i] in probes| >= k ==>
      forall e | e in out :: e.id < |code0| && code0[e.id] in probes
    ensures nprobe >= |lists| ==> forall c | 0 <= c < |lists| :: c in probes
  {
    hide Fits, AdcDistance, Nearest, Candidates, ListOf;
    var scores := ListScores(table, invNorm);
    var cap := if nprobe <= 0 then 0 else Min(nprobe, |lists|);
    var bestIds, bestScores := new nat[cap](_ => 0), new real[cap](_ => 0.0);
    var n := SelectTopClustersByScore(scores, cap, bestIds, bestScores);
    probes := bestIds[..n];
    var candidates := GatherCandidates(code0, lists, probes);
    CandidatesInRange(code0, probes);
    CandidatesSize(code0, probes);
    ChoiceMeans(probes, scores);
    if |candidates| < k {
      out := AdcScanAllTopK(base, table, k);
    } else {
      out := AdcScanCandidatesTopK(base, table, candidates, k);
      NearestMeans(candidates, DistOf(base, table), k);
    }
  }

  lemma ChoiceMeans(probes: seq<nat>, scores: seq<real>)
    requires |probes| > 0 ==> TopChoice(probes, scores)
    ensures forall u, c | 0 <= u < |scores| && u !in probes && c in probes :: c < |scores| && scores[u] <= scores[c]
  {
  }

  // ---- All queries, and the recall ----

  function Ids(row: seq<Scored>): (r: seq<int>)
    ensures |r| == |row| && forall j | 0 <= j < |r| :: r[j] == row[j].id
  {
    seq(|row|, j requires 0 <= j < |row| => row[j].id)
  }

  // Queries among the first n whose true neighbour is in the result row.
  function Hits(gt: seq<int>, rows: seq<seq<int>>, n: nat): (h: nat)
    requires n <= |gt| && n <= |rows|
    ensures h <= n
  {
    if n == 0 then 0 else Hits(gt, rows, n - 1) + (if gt[n - 1] in rows[n - 1] then 1 else 0)
  }

  function IsHit(gt: seq<int>, rows: seq<seq<int>>): int -> bool {
    (q: int) => 0 <= q < |gt| && q < |rows| && gt[q] in rows[q]
  }

  lemma {:induction false} HitsTally(gt: seq<int>, rows: seq<seq<int>>, n: nat)
    requires n <= |gt| && n <= |rows|
    ensures Hits(gt, rows, n) == Tally(IsHit(gt, rows), n)
  {
    if n > 0 {
      HitsTally(gt, rows, n - 1);
    }
  }

  lemma HitsAreQueries(gt: seq<int>, rows: seq<seq<int>>, n: nat)
    requires n <= |gt| && n <= |rows|
    ensures Hits(gt, rows, n) == |set q | 0 <= q < n && gt[q] in rows[q]|
  {
    HitsTally(gt, rows, n);
    TallyIsSize(IsHit(gt, rows), n);
    assert (set q | 0 <= q < n && IsHit(gt, rows)(q)) == set q | 0 <= q < n && gt[q] in rows[q];
  }

  // The share of queries with a hit; 0 for an empty matrix or a size mismatch.
  method ComputeRecallAtKMatrix(gt: seq<int>, rows: seq<seq<int>>, k: int) returns (recall: real)
    requires forall q | 0 <= q < |rows| :: |rows[q]| == if k < 0 then 0 else k
    ensures 0.0 <= recall <= 1.0
    ensures k > 0 && |rows| > 0 && |gt| == |rows| ==> recall * (|rows| as real) == Hits(gt, rows, |rows|) as real
    ensures !(k > 0 && |rows| > 0 && |gt| == |rows|) ==> recall == 0.0
    ensures k > 0 && |rows| > 0 && |gt| == |rows| ==>
      recall * (|rows| as real) == |set q | 0 <= q < |rows| && gt[q] in rows[q]| as real
  {
    if |gt| == |rows| {
      HitsAreQueries(gt, rows, |rows|);
    }
    if k <= 0 || |rows| <= 0 {
      return 0.0;
    }
    if |gt| != |rows| {
      return 0.0;
    }
    var hits := 0;
    for qi := 0 to |rows|
      invariant hits == Hits(gt, rows, qi)
    {
      var found := false;
      for j := 0 to k
        invariant !found && gt[qi] !in rows[qi][..j]
      {
        if rows[qi][j] == gt[qi] {
          found := true;
          break;
        }
      }
      assert rows[qi][..k] == rows[qi];
      if found {
        hits := hits + 1;
      }
    }
    recall := Ratio(hits, |rows|);
  }

  function Ratio(a: nat, b: nat): (r: real)
    requires a <= b && b > 0
    ensures 0.0 <= r <= 1.0 && r * (b as real) == a as real
  {
    (a as real) / (b as real)
  }

  datatype RecallResult = Failed | Evaluated(rows: seq<seq<Scored>>, recall: real)

  ghost predicate AllFit(base: Base, tables: seq<seq<real>>) {
    forall q | 0 <= q < |tables| :: Fits(base, |tables[q]|)
  }

  // What an evaluation returns for the rows: the recall of their ids.
  ghost predicate RecallOf(r: RecallResult, gt: seq<int>, nq: nat, k: nat) {
    r.Evaluated? ==>
      && |r.rows| == nq == |gt| && (forall q | 0 <= q < nq :: |r.rows[q]| == k)
      && (k > 0 && nq > 0 ==>
            r.recall * (nq as real) == Hits(gt, seq(nq, q requires 0 <= q < nq => Ids(r.rows[q])), nq) as real)
  }

  method RecallOfRows(gt: seq<int>, rows: seq<seq<Scored>>, k: nat) returns (r: RecallResult)
    requires |gt| == |rows| && forall q | 0 <= q < |rows| :: |rows[q]| == k
    ensures r.Evaluated? && r.rows == rows && RecallOf(r, gt, |rows|, k)
  {
    var indices := seq(|rows|, q requires 0 <= q < |rows| => Ids(rows[q]));
    var recall := ComputeRecallAtKMatrix(gt, indices, k);
    r := Evaluated(rows, recall);
  }

  // What the evaluations ask of the codebooks: how many there are, their common dimension, and the
  // columns and rows of the first one.
  datatype Codebooks = Codebooks(m: nat, d: nat, nlist: nat, rows: nat, maxH: nat)

  // Some stored code exceeds the type it is kept in: a byte when no book has more than 256 columns,
  // otherwise 16 bits.
  predicate CodeTooWide(base: Base, books: Codebooks) {
    exists i, cb | 0 <= i < |base.codes| && 0 <= cb < |base.codes[i]| ::
      base.codes[i][cb] >= if books.maxH <= 256 then 256 else 65536
  }

  // ConvertCodes.
  method ConvertCodes(base: Base, books: Codebooks) returns (ok: bool)
    ensures ok <==> !CodeTooWide(base, books)
  {
    for i := 0 to |base.codes|
      invariant forall j, cb | 0 <= j < i && 0 <= cb < |base.codes[j]| ::
        base.codes[j][cb] < if books.maxH <= 256 then 256 else 65536
    {
      for cb := 0 to |base.codes[i]|
        invariant forall c | 0 <= c < cb :: base.codes[i][c] < if books.maxH <= 256 then 256 else 65536
      {
        if base.codes[i][cb] >= if books.maxH <= 256 then 256 else 65536 {
          return false;
        }
      }
    }
    ok := true;
  }

  // The full scan of every query. It refuses k <= 0 and clamps k to the number of vectors, so
  // every scan has enough candidates.
  method EvaluateRecallBase(base: Base, books: Codebooks, tables: seq<seq<real>>, gt: seq<int>, kCfg: int)
    returns (r: RecallResult)
    requires AllFit(base, tables)
    ensures r.Failed? <==>
      |gt| != |tables| || kCfg <= 0 || books.m == 0 || books.d == 0 || books.m != base.m || CodeTooWide(base, books)
    ensures r.Evaluated? ==>
      && RecallOf(r, gt, |tables|, Min(kCfg, |base.codes|))
      && (forall q | 0 <= q < |tables| :: |r.rows[q]| == if kCfg <= |base.codes| then kCfg else |base.codes|)
      && forall q | 0 <= q < |tables| :: r.rows[q] == FullResult(|base.codes|, DistOf(base, tables[q]), |r.rows[q]|)
  {
    hide FullResult, Fits, RecallOf, DistOf, CodeTooWide;
    if |gt| != |tables| || kCfg <= 0 || books.m == 0 || books.d == 0 || books.m != base.m {
      return Failed;
    }
    var k := Min(kCfg, |base.codes|);
    var ok := ConvertCodes(base, books);
    if !ok {
      return Failed;
    }
    var rows: seq<seq<Scored>> := [];
    for q := 0 to |tables|
      invariant |rows| == q && forall j | 0 <= j < q :: |rows[j]| == k
      invariant forall j | 0 <= j < q :: rows[j] == FullResult(|base.codes|, DistOf(base, tables[j]), k)
    {
      var row := AdcScanAllTopK(base, tables[q], k);
      rows := rows + [row];
    }
    r := RecallOfRows(gt, rows, k);
  }

  // One query's row and the lists it probed.
  ghost predicate Searched(base: Base, code0: seq<nat>, table: seq<real>, invNorm: seq<real>, nlist: nat,
                           nprobe: int, k: nat, row: seq<Scored>, probes: seq<nat>)
    requires Fits(base, |table|) && |invNorm| <= |table| && k <= |code0|
  {
    && |row| == k && Distinct(probes) && |probes| == Min(if nprobe < 0 then 0 else nprobe, nlist)
    && TopChoice(probes, ListScores(table, invNorm)) && row == IvfResult(code0, probes, DistOf(base, table), k)
    && (nprobe >= nlist ==> row == FullResult(|code0|, DistOf(base, table), k))
  }

  // The search of every query probes max(1, nprobe) lists but no more than there are, and no list
  // left out scores above a probed one; with at least nlist probes every row is that of the
  // full scan.
  method EvaluateRecallBaseIvf(base: Base, books: Codebooks, code0: seq<nat>, tables: seq<seq<real>>, gt: seq<int>,
                               invNorm: seq<real>, nprobeCfg: int, kCfg: int)
    returns (r: RecallResult, ghost probes: seq<seq<nat>>)
    requires AllFit(base, tables) && |code0| == |base.codes| && forall i | 0 <= i < |code0| :: code0[i] < books.nlist
    requires |invNorm| == books.nlist && forall q | 0 <= q < |tables| :: books.nlist <= |tables[q]|
    ensures r.Failed? <==>
      || |gt| != |tables| || books.m == 0 || books.d == 0 || books.m != base.m
      || books.nlist == 0 || books.rows != books.d || CodeTooWide(base, books)
    ensures r.Evaluated? ==>
      && RecallOf(r, gt, |tables|, Min(if kCfg < 1 then 1 else kCfg, |code0|)) && |probes| == |tables|
      && (forall q | 0 <= q < |tables| ::
            |r.rows[q]| == if |code0| == 0 then 0
                           else if kCfg < 1 then 1 else if kCfg <= |code0| then kCfg else |code0|)
      && forall q | 0 <= q < |tables| ::
        && Distinct(probes[q]) && |r.rows[q]| <= |code0|
        && |probes[q]| == Min(if nprobeCfg < 1 then 1 else nprobeCfg, books.nlist)
        && TopChoice(probes[q], ListScores(tables[q], invNorm))
        && r.rows[q] == IvfResult(code0, probes[q], DistOf(base, tables[q]), |r.rows[q]|)
        && (nprobeCfg >= books.nlist ==> r.rows[q] == FullResult(|code0|, DistOf(base, tables[q]), |r.rows[q]|))
  {
    hide FullResult, IvfResult, Fits, RecallOf, DistOf, TopChoice, ListOf, CodeTooWide;
    probes := [];
    if |gt| != |tables| || books.m == 0 || books.d == 0 || books.m != base.m {
      return Failed, probes;
    }
    var k := Min(if kCfg < 1 then 1 else kCfg, |code0|);
    if books.nlist <= 0 || books.rows != books.d {
      return Failed, probes;
    }
    var ok := ConvertCodes(base, books);
    if !ok {
      return Failed, probes;
    }
    var lists := BuildLists(code0, books.nlist);
    var nprobe := if nprobeCfg < 1 then 1 else nprobeCfg;
    var rows: seq<seq<Scored>> := [];
    for q := 0 to |tables|
      invariant |rows| == |probes| == q
      invariant forall j | 0 <= j < q ::
        Searched(base, code0, tables[j], invNorm, books.nlist, nprobe, k, rows[j], probes[j])
    {
      var row, chosen;
      row, chosen := QueryIvf(base, code0, lists, tables[q], invNorm, nprobe, k);
      if nprobe >= books.nlist {
        AllProbesIsFullScan(code0, books.nlist, chosen, DistOf(base, tables[q]), k);
      }
      rows, probes := rows + [row], probes + [chosen];
    }
    r := RecallOfRows(gt, rows, k);
  }
}
