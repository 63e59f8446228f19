// Ranking metrics: discounted gain against its ideal, recall over a ground-truth set, and two ways
// to compute the top-1 recall curve.
module EvalMetrics {
  import opened Arith

  // ---- One query ----

  // The distinct non-negative ids among the first n, in order of first appearance.
  function GtSet(gt: seq<int>, n: nat): (r: seq<int>)
    requires n <= |gt|
    ensures |r| <= n
  {
    if n == 0 then []
    else
      var s := GtSet(gt, n - 1);
      if gt[n - 1] >= 0 && gt[n - 1] !in s then s + [gt[n - 1]] else s
  }

  // The k-th prediction (from 0) is relevant when it is in the set and has not been seen before.
  predicate Relevant(pred: seq<int>, rel: seq<int>, k: nat)
    requires k < |pred|
  {
    pred[k] in rel && pred[k] !in pred[..k]
  }

  function Intersection(pred: seq<int>, rel: seq<int>, k: nat): (r: nat)
    requires k <= |pred|
    ensures r <= k
  {
    if k == 0 then 0 else Intersection(pred, rel, k - 1) + (if Relevant(pred, rel, k - 1) then 1 else 0)
  }

  // Gain of rank i (from 0); 1 / log2(i + 2) in the source.
  ghost predicate Discount(disc: nat -> real) {
    (forall i :: disc(i) > 0.0) && forall i, j | i < j :: disc(i) > disc(j)
  }

  function Dcg(pred: seq<int>, rel: seq<int>, disc: nat -> real, k: nat): real
    requires k <= |pred|
  {
    if k == 0 then 0.0 else Dcg(pred, rel, disc, k - 1) + (if Relevant(pred, rel, k - 1) then disc(k - 1) else 0.0)
  }

  function Ideal(disc: nat -> real, n: nat): real {
    if n == 0 then 0.0 else Ideal(disc, n - 1) + disc(n - 1)
  }

  function Quotient(a: real, b: real): (r: real)
    ensures if b > 0.0 then r * b == a else r == 0.0
  {
    if b > 0.0 then a / b else 0.0
  }

  function Ndcg(pred: seq<int>, rel: seq<int>, disc: nat -> real, k: nat): real
    requires k <= |pred|
  {
    Quotient(Dcg(pred, rel, disc, k), Ideal(disc, Min(|rel|, k)))
  }

  function RecallAt(pred: seq<int>, rel: seq<int>, k: nat): real
    requires k <= |pred|
  {
    Quotient(Intersection(pred, rel, k) as real, (if |rel| >= 1 then |rel| else 1) as real)
  }

  // ---- The metrics in terms of sets ----

  function SumOf(value: nat -> real, n: nat): real {
    if n == 0 then 0.0 else SumOf(value, n - 1) + value(n - 1)
  }

  // The ids to be found.
  ghost function Truth(gt: seq<int>, n: nat): set<int>
    requires n <= |gt|
  {
    set x | x in gt[..n] && x >= 0
  }

  // The gain of each position that holds a member of the set for the first time.
  ghost function FirstHits(pred: seq<int>, truth: set<int>, disc: nat -> real): nat -> real {
    (i: nat) => if i < |pred| && pred[i] in truth && (forall j | 0 <= j < i :: pred[j] != pred[i]) then disc(i) else 0.0
  }

  lemma OneMore(a: set<int>, x: int)
    ensures |a + {x}| == |a| + (if x in a then 0 else 1) && a + {} == a
  {
    if x in a {
      assert a + {x} == a;
    }
  }

  // The hits are all members of the set among the first k predictions.
  lemma {:induction false} HitsAreAll(pred: seq<int>, rel: seq<int>, truth: set<int>, k: nat)
    requires k <= |pred| && forall x :: x in rel <==> x in truth
    ensures Intersection(pred, rel, k) == |set x | x in pred[..k] && x in truth|
  {
    if k == 0 {
      assert Found(pred, truth, 0) == {};
    } else {
      HitsAreAll(pred, rel, truth, k - 1);
      FoundMore(pred, truth, k);
    }
    assert Found(pred, truth, k) == set x | x in pred[..k] && x in truth;
  }

  ghost function Found(pred: seq<int>, truth: set<int>, k: nat): set<int>
    requires k <= |pred|
  {
    set x | x in pred[..k] && x in truth
  }

  lemma FoundMore(pred: seq<int>, truth: set<int>, k: nat)
    requires 0 < k <= |pred|
    ensures |Found(pred, truth, k)| == |Found(pred, truth, k - 1)|
      + (if pred[k - 1] in truth && pred[k - 1] !in pred[..k - 1] then 1 else 0)
  {
    var x := pred[k - 1];
    assert pred[..k] == pred[..k - 1] + [x];
    if x in truth {
      assert Found(pred, truth, k) == Found(pred, truth, k - 1) + {x};
      OneMore(Found(pred, truth, k - 1), x);
    } else {
      assert Found(pred, truth, k) == Found(pred, truth, k - 1);
    }
  }

  // The gain is that of all first occurrences of members of the set.
  lemma {:induction false} DcgIsFirstHits(pred: seq<int>, rel: seq<int>, truth: set<int>, disc: nat -> real, k: nat)
    requires k <= |pred| && forall x :: x in rel <==> x in truth
    ensures Dcg(pred, rel, disc, k) == SumOf(FirstHits(pred, truth, disc), k)
  {
    if k > 0 {
      DcgIsFirstHits(pred, rel, truth, disc, k - 1);
      FirstTime(pred, k - 1);
    }
  }

  lemma FirstTime(pred: seq<int>, k: nat)
    requires k < |pred|
    ensures pred[k] !in pred[..k] <==> forall j | 0 <= j < k :: pred[j] != pred[k]
  {
    assert forall j | 0 <= j < k :: pred[..k][j] == pred[j] && pred[j] in pred[..k];
  }

  lemma {:induction false} IdealIsSum(disc: nat -> real, n: nat)
    ensures Ideal(disc, n) == SumOf(disc, n)
  {
    if n > 0 {
      IdealIsSum(disc, n - 1);
    }
  }

  lemma {:induction false} TruthSize(gt: seq<int>, n: nat)
    requires n <= |gt|
    ensures |GtSet(gt, n)| == |Truth(gt, n)| && forall x :: x in GtSet(gt, n) <==> x in Truth(gt, n)
  {
    if n == 0 {
      assert Truth(gt, 0) == {};
    } else {
      TruthSize(gt, n - 1);
      TruthMore(gt, n);
    }
  }

  lemma TruthMore(gt: seq<int>, n: nat)
    requires 0 < n <= |gt|
    ensures var before, x := Truth(gt, n - 1), gt[n - 1];
      && |Truth(gt, n)| == |before| + (if x >= 0 && x !in before then 1 else 0)
      && forall y :: y in Truth(gt, n) <==> y in before || (y == x && x >= 0)
  {
    var before, x := Truth(gt, n - 1), gt[n - 1];
    assert gt[..n] == gt[..n - 1] + [x];
    if x >= 0 {
      assert Truth(gt, n) == before + {x};
      OneMore(before, x);
    } else {
      assert Truth(gt, n) == before;
    }
  }

  // Recall is the share of the set among the first k predictions, nDCG the gain of all first hits over that
  // of as many hits at the top; an empty set gives 0 for both.
  lemma QueryMeans(pred: seq<int>, gt: seq<int>, gtK: nat, disc: nat -> real, k: nat)
    requires k <= |pred| && gtK <= |gt|
    ensures var truth, rel := Truth(gt, gtK), GtSet(gt, gtK);
      && RecallAt(pred, rel, k) == Quotient(|set x | x in pred[..k] && x in truth| as real, Max(1, |truth|) as real)
      && Ndcg(pred, rel, disc, k) == Quotient(SumOf(FirstHits(pred, truth, disc), k), SumOf(disc, Min(|truth|, k)))
  {
    hide Quotient, GtSet, Intersection, Dcg, Ideal, SumOf, FirstHits, Truth;
    var truth, rel := Truth(gt, gtK), GtSet(gt, gtK);
    TruthSize(gt, gtK);
    HitsAreAll(pred, rel, truth, k);
    DcgIsFirstHits(pred, rel, truth, disc, k);
    IdealIsSum(disc, Min(|truth|, k));
  }

  // ---- Counting relevant predictions ----

  function Elems(s: seq<int>): set<int> {
    set x | x in s
  }

  function RelevantIds(pred: seq<int>, rel: seq<int>, k: nat): set<int>
    requires k <= |pred|
  {
    if k == 0 then {} else RelevantIds(pred, rel, k - 1) + (if Relevant(pred, rel, k - 1) then {pred[k - 1]} else {})
  }

  lemma {:induction false} RelevantIdsCount(pred: seq<int>, rel: seq<int>, k: nat)
    requires k <= |pred|
    ensures |RelevantIds(pred, rel, k)| == Intersection(pred, rel, k)
    ensures forall x | x in RelevantIds(pred, rel, k) :: x in rel && x in pred[..k]
  {
    if k > 0 {
      RelevantIdsCount(pred, rel, k - 1);
      var x, before := pred[k - 1], RelevantIds(pred, rel, k - 1);
      assert forall y :: y in pred[..k] <==> y in pred[..k - 1] || y == x;
      assert Relevant(pred, rel, k - 1) ==> x !in before;
      assert x !in before ==> |before + {x}| == |before| + 1;
    }
  }

  lemma {:induction false} ElemsBound(s: seq<int>)
    ensures |Elems(s)| <= |s|
  {
    if s == [] {
      assert Elems(s) == {};
    } else {
      var n := |s| - 1;
      ElemsBound(s[..n]);
      assert s == s[..n] + [s[n]];
      assert Elems(s) == Elems(s[..n]) + {s[n]};
    }
  }

  lemma SubsetSize(a: set<int>, b: set<int>)
    requires a <= b
    ensures |a| <= |b|
  {
    assert b == a + (b - a);
  }

  lemma IntersectionBound(pred: seq<int>, rel: seq<int>, k: nat)
    requires k <= |pred|
    ensures Intersection(pred, rel, k) <= Min(|rel|, k)
  {
    RelevantIdsCount(pred, rel, k);
    ElemsBound(rel);
    var a := RelevantIds(pred, rel, k);
    forall x | x in a
      ensures x in Elems(rel)
    {
      assert x in rel;
    }
    SubsetSize(RelevantIds(pred, rel, k), Elems(rel));
  }

  // ---- The nDCG bound ----

  lemma {:induction false} IdealGrows(disc: nat -> real, a: nat, b: nat)
    requires Discount(disc) && a <= b
    ensures 0.0 <= Ideal(disc, a) <= Ideal(disc, b)
    ensures a < b ==> Ideal(disc, a) < Ideal(disc, b)
    decreases b
  {
    if a < b {
      IdealGrows(disc, a, b - 1);
    } else if b > 0 {
      IdealGrows(disc, a - 1, b - 1);
    }
  }

  lemma DiscountAt(disc: nat -> real, i: nat, j: nat)
    requires Discount(disc) && i <= j
    ensures disc(j) > 0.0 && disc(i) >= disc(j) && (i < j ==> disc(i) > disc(j))
  {
  }

  // The gain never exceeds that of the same number of hits at the top, and reaches it only there.
  lemma {:induction false} DcgByHits(pred: seq<int>, rel: seq<int>, disc: nat -> real, k: nat)
    requires Discount(disc) && k <= |pred|
    ensures var r := Intersection(pred, rel, k);
      && 0.0 <= Dcg(pred, rel, disc, k) <= Ideal(disc, r)
      && (Dcg(pred, rel, disc, k) == Ideal(disc, r) ==> forall i | 0 <= i < r :: Relevant(pred, rel, i))
  {
    hide Relevant, Discount;
    if k > 0 {
      DcgByHits(pred, rel, disc, k - 1);
      var r := Intersection(pred, rel, k - 1);
      DiscountAt(disc, r, k - 1);
      assert Ideal(disc, r + 1) == Ideal(disc, r) + disc(r);
    }
  }

  lemma {:induction false} TopHits(pred: seq<int>, rel: seq<int>, disc: nat -> real, n: nat, k: nat)
    requires Discount(disc) && n <= k <= |pred| && forall i | 0 <= i < n :: Relevant(pred, rel, i)
    ensures Dcg(pred, rel, disc, k) >= Ideal(disc, n)
    decreases k
  {
    if n == k {
      if n > 0 {
        TopHits(pred, rel, disc, n - 1, k - 1);
      }
    } else {
      TopHits(pred, rel, disc, n, k - 1);
    }
  }

  // For any predictions, repeats and fillers included, 0 <= nDCG <= 1, and it is 1 exactly when
  // there is something to find and the first min(|rel|, k) predictions are all distinct hits.
  lemma NdcgBound(pred: seq<int>, rel: seq<int>, disc: nat -> real, k: nat)
    requires Discount(disc) && k <= |pred|
    ensures Dcg(pred, rel, disc, k) <= Ideal(disc, Min(|rel|, k))
    ensures 0.0 <= Ndcg(pred, rel, disc, k) <= 1.0
    ensures Ndcg(pred, rel, disc, k) == 1.0 <==> k >= 1 && rel != [] && AllHits(pred, rel, Min(|rel|, k))
  {
    var n := Min(|rel|, k);
    var dcg, ideal := Dcg(pred, rel, disc, k), Ideal(disc, n);
    var r := Intersection(pred, rel, k);
    DcgByHits(pred, rel, disc, k);
    IntersectionBound(pred, rel, k);
    IdealGrows(disc, r, n);
    IdealGrows(disc, 0, n);
    QuotientBound(dcg, ideal);
    HitsAreDistinct(pred, rel, n);
    if forall i | 0 <= i < n :: Relevant(pred, rel, i) {
      TopHits(pred, rel, disc, n, k);
    }
  }

  lemma QuotientBound(a: real, b: real)
    requires 0.0 <= a <= b
    ensures 0.0 <= Quotient(a, b) <= 1.0
    ensures Quotient(a, b) == 1.0 <==> b > 0.0 && a == b
  {
    if b > 0.0 {
      assert Quotient(a, b) < 0.0 ==> Quotient(a, b) * b < 0.0;
      assert Quotient(a, b) > 1.0 ==> (Quotient(a, b) - 1.0) * b > 0.0;
    }
  }

  // The first n predictions are pairwise distinct and all in the set.
  ghost predicate AllHits(pred: seq<int>, rel: seq<int>, n: nat)
    requires n <= |pred|
  {
    (forall i | 0 <= i < n :: pred[i] in rel) && forall i, j | 0 <= i < j < n :: pred[i] != pred[j]
  }

  lemma HitsAreDistinct(pred: seq<int>, rel: seq<int>, n: nat)
    requires n <= |pred|
    ensures AllHits(pred, rel, n) <==> forall i | 0 <= i < n :: Relevant(pred, rel, i)
  {
    if AllHits(pred, rel, n) {
      forall j | 0 <= j < n
        ensures Relevant(pred, rel, j)
      {
        assert forall i | 0 <= i < j :: pred[..j][i] == pred[i] != pred[j];
      }
    }
    if forall i | 0 <= i < n :: Relevant(pred, rel, i) {
      forall i | 0 <= i < n
        ensures pred[i] in rel
      {
        assert Relevant(pred, rel, i);
      }
      forall i, j | 0 <= i < j < n
        ensures pred[i] != pred[j]
      {
        assert pred[..j][i] in pred[..j];
        assert Relevant(pred, rel, j);
      }
    }
  }

  // Recall over the set: between 0 and 1 and never falling with k.
  lemma RecallBound(pred: seq<int>, rel: seq<int>, k: nat)
    requires k <= |pred|
    ensures 0.0 <= RecallAt(pred, rel, k) <= 1.0
    ensures k > 0 ==> RecallAt(pred, rel, k - 1) <= RecallAt(pred, rel, k)
  {
    IntersectionBound(pred, rel, k);
    var b := (if |rel| >= 1 then |rel| else 1) as real;
    QuotientBound(Intersection(pred, rel, k) as real, b);
    if k > 0 {
      QuotientMono(Intersection(pred, rel, k - 1) as real, Intersection(pred, rel, k) as real, b);
    }
  }

  lemma QuotientMono(a: real, a': real, b: real)
    requires a <= a' && b > 0.0
    ensures Quotient(a, b) <= Quotient(a', b)
  {
    var d := Quotient(a', b) - Quotient(a, b);
    assert d * b == a' - a;
    assert d < 0.0 ==> d * b < 0.0;
  }

  // ---- The loops of ComputeEvalMetricBundle ----

  datatype Curve = Curve(gtK: nat, recall: seq<real>, ndcg: seq<real>)

  lemma {:induction false} GtSetFacts(gt: seq<int>, n: nat)
    requires n <= |gt|
    ensures forall x :: x in GtSet(gt, n) <==> x >= 0 && x in gt[..n]
    ensures forall i, j | 0 <= i < j < |GtSet(gt, n)| :: GtSet(gt, n)[i] != GtSet(gt, n)[j]
  {
    if n > 0 {
      GtSetFacts(gt, n - 1);
      assert gt[..n] == gt[..n - 1] + [gt[n - 1]];
    }
  }

  method CollectGtSet(gt: seq<int>, gtK: nat) returns (rel: seq<int>)
    requires gtK <= |gt|
    ensures rel == GtSet(gt, gtK)
  {
    rel := [];
    for i := 0 to gtK
      invariant rel == GtSet(gt, i)
    {
      if gt[i] >= 0 && gt[i] !in rel {
        rel := rel + [gt[i]];
      }
    }
  }

  method IdealDcgAtK(disc: nat -> real, relevantCount: nat) returns (idcg: real)
    ensures idcg == Ideal(disc, relevantCount)
  {
    idcg := 0.0;
    for i := 0 to relevantCount
      invariant idcg == Ideal(disc, i)
    {
      idcg := idcg + disc(i);
    }
  }

  // The predictions seen before position k, each once.
  ghost predicate Seen(pred: seq<int>, seen: seq<int>, k: nat)
    requires k <= |pred|
  {
    forall x :: x in seen <==> x in pred[..k]
  }

  lemma SeenMembers(pred: seq<int>, seen: seq<int>, k: nat)
    requires k < |pred| && Seen(pred, seen, k)
    ensures Seen(pred, if pred[k] in seen then seen else seen + [pred[k]], k + 1)
  {
    assert pred[..k + 1] == pred[..k] + [pred[k]];
  }

  lemma NoneSeen(pred: seq<int>)
    ensures Seen(pred, [], 0)
  {
  }

  lemma NoGain(pred: seq<int>, rel: seq<int>, disc: nat -> real)
    ensures Intersection(pred, rel, 0) == 0 && Dcg(pred, rel, disc, 0) == 0.0
  {
  }

  // The running counts after one more prediction, and the two metrics they give.
  lemma GainMore(pred: seq<int>, rel: seq<int>, disc: nat -> real, k: nat)
    requires k < |pred|
    ensures var hit := Relevant(pred, rel, k);
      && Intersection(pred, rel, k + 1) == (if hit then Intersection(pred, rel, k) + 1 else Intersection(pred, rel, k))
      && Dcg(pred, rel, disc, k + 1) == (if hit then Dcg(pred, rel, disc, k) + disc(k) else Dcg(pred, rel, disc, k))
    ensures RecallAt(pred, rel, k + 1)
         == Quotient(Intersection(pred, rel, k + 1) as real, (if |rel| >= 1 then |rel| else 1) as real)
    ensures Ndcg(pred, rel, disc, k + 1)
         == Quotient(Dcg(pred, rel, disc, k + 1), Ideal(disc, Min(|rel|, k + 1)))
  {
    hide Relevant, Quotient, Ideal;
  }

  // The curve with the query's two metrics added at the first n cut-offs.
  ghost predicate AddedTo(r: Curve, curve: Curve, pred: seq<int>, rel: seq<int>, disc: nat -> real, n: nat) {
    && r.gtK == curve.gtK && |r.recall| == |r.ndcg| == |curve.recall| == |curve.ndcg| == |pred| && n <= |pred|
    && (forall j | 0 <= j < n :: r.recall[j] == curve.recall[j] + RecallAt(pred, rel, j + 1))
    && (forall j | 0 <= j < n :: r.ndcg[j] == curve.ndcg[j] + Ndcg(pred, rel, disc, j + 1))
    && (forall j | n <= j < |pred| :: r.recall[j] == curve.recall[j] && r.ndcg[j] == curve.ndcg[j])
  }

  lemma AddedNone(curve: Curve, pred: seq<int>, rel: seq<int>, disc: nat -> real)
    requires |curve.recall| == |curve.ndcg| == |pred|
    ensures AddedTo(curve, curve, pred, rel, disc, 0)
  {
  }

  function AddAt(r: Curve, k: nat, recall: real, ndcg: real): Curve
    requires k < |r.recall| == |r.ndcg|
  {
    r.(recall := r.recall[k := r.recall[k] + recall], ndcg := r.ndcg[k := r.ndcg[k] + ndcg])
  }

  lemma AddedMore(r: Curve, curve: Curve, pred: seq<int>, rel: seq<int>, disc: nat -> real, k: nat)
    requires AddedTo(r, curve, pred, rel, disc, k) && k < |pred|
    ensures var next := AddAt(r, k, RecallAt(pred, rel, k + 1), Ndcg(pred, rel, disc, k + 1));
      AddedTo(next, curve, pred, rel, disc, k + 1)
  {
    hide RecallAt, Ndcg;
  }

  // Adds one query's recall and nDCG at every cut-off to the curve: the share of the ids to be found, and
  // the gain of all first hits over the ideal gain.
  method AddQuery(curve: Curve, pred: seq<int>, gt: seq<int>, disc: nat -> real) returns (r: Curve)
    requires |curve.recall| == |curve.ndcg| == |pred| && curve.gtK <= |gt|
    ensures AddedTo(r, curve, pred, GtSet(gt, curve.gtK), disc, |pred|)
    ensures |r.recall| == |r.ndcg| == |pred|
    ensures var truth := set x | x in gt[..curve.gtK] && x >= 0; forall k | 0 <= k < |pred| ::
      && r.recall[k] == curve.recall[k]
           + Quotient(|set x | x in pred[..k + 1] && x in truth| as real, Max(1, |truth|) as real)
      && r.ndcg[k] == curve.ndcg[k]
           + Quotient(SumOf(FirstHits(pred, truth, disc), k + 1), SumOf(disc, Min(|truth|, k + 1)))
  {
    hide AddedTo, GtSet, SumOf, FirstHits, Quotient;
    r := AddAllRanks(curve, pred, gt, disc);
    AddedMeans(r, curve, pred, gt, disc);
  }

  lemma AddedMeans(r: Curve, curve: Curve, pred: seq<int>, gt: seq<int>, disc: nat -> real)
    requires curve.gtK <= |gt| && AddedTo(r, curve, pred, GtSet(gt, curve.gtK), disc, |pred|)
    ensures |r.recall| == |r.ndcg| == |curve.recall| == |curve.ndcg| == |pred|
    ensures var truth := set x | x in gt[..curve.gtK] && x >= 0; forall k | 0 <= k < |pred| ::
      && r.recall[k] == curve.recall[k]
           + Quotient(|set x | x in pred[..k + 1] && x in truth| as real, Max(1, |truth|) as real)
      && r.ndcg[k] == curve.ndcg[k]
           + Quotient(SumOf(FirstHits(pred, truth, disc), k + 1), SumOf(disc, Min(|truth|, k + 1)))
  {
    hide RecallAt, Ndcg, GtSet, SumOf, FirstHits, Quotient;
    forall k | 0 <= k < |pred|
      ensures var truth := Truth(gt, curve.gtK);
        && r.recall[k] == curve.recall[k]
             + Quotient(|set x | x in pred[..k + 1] && x in truth| as real, Max(1, |truth|) as real)
        && r.ndcg[k] == curve.ndcg[k]
             + Quotient(SumOf(FirstHits(pred, truth, disc), k + 1), SumOf(disc, Min(|truth|, k + 1)))
    {
      QueryMeans(pred, gt, curve.gtK, disc, k + 1);
    }
  }

  method AddAllRanks(curve: Curve, pred: seq<int>, gt: seq<int>, disc: nat -> real) returns (r: Curve)
    requires |curve.recall| == |curve.ndcg| == |pred| && curve.gtK <= |gt|
    ensures AddedTo(r, curve, pred, GtSet(gt, curve.gtK), disc, |pred|)
  {
    hide Relevant, GtSet, Quotient, Intersection, Dcg, RecallAt, Ndcg, Ideal, AddedTo, Seen;
    var rel := CollectGtSet(gt, curve.gtK);
    NoGain(pred, rel, disc);
    NoneSeen(pred);
    AddedNone(curve, pred, rel, disc);
    r := curve;
    var intersection, dcg := 0, 0.0;
    var predSeen: seq<int> := [];
    for k := 0 to |pred|
      invariant |r.recall| == |r.ndcg| == |pred| && AddedTo(r, curve, pred, rel, disc, k)
      invariant Seen(pred, predSeen, k)
      invariant intersection == Intersection(pred, rel, k) && dcg == Dcg(pred, rel, disc, k)
    {
      SeenMembers(pred, predSeen, k);
      GainMore(pred, rel, disc, k);
      var relevant := IsRelevant(pred, predSeen, rel, k);
      if pred[k] !in predSeen {
        predSeen := predSeen + [pred[k]];
      }
      if relevant {
        intersection := intersection + 1;
        dcg := dcg + disc(k);
      }
      var recall, ndcg := RankMetrics(intersection, dcg, |rel|, disc, k + 1);
      AddedMore(r, curve, pred, rel, disc, k);
      r := AddAt(r, k, recall, ndcg);
    }
  }

  // Recall and nDCG at cut-off k, from the running counts.
  method RankMetrics(intersection: nat, dcg: real, relevant: nat, disc: nat -> real, k: nat)
    returns (recall: real, ndcg: real)
    ensures recall == Quotient(intersection as real, (if relevant >= 1 then relevant else 1) as real)
    ensures ndcg == Quotient(dcg, Ideal(disc, Min(relevant, k)))
  {
    hide Quotient, Ideal;
    var denom := IdealDcgAtK(disc, Min(relevant, k));
    recall := Quotient(intersection as real, (if relevant >= 1 then relevant else 1) as real);
    ndcg := Quotient(dcg, denom);
  }

  method IsRelevant(pred: seq<int>, seen: seq<int>, rel: seq<int>, k: nat) returns (b: bool)
    requires k < |pred| && Seen(pred, seen, k)
    ensures b == Relevant(pred, rel, k)
  {
    var id := pred[k];
    assert id in seen <==> id in pred[..k];
    b := id !in seen && id in rel;
  }

  // ---- Averages over the queries ----

  ghost predicate Shaped(preds: seq<seq<int>>, gts: seq<seq<int>>, resultK: nat, gtK: nat) {
    && |preds| == |gts| && forall q | 0 <= q < |preds| :: |preds[q]| == resultK && gtK <= |gts[q]|
  }

  function QueryRecall(preds: seq<seq<int>>, gts: seq<seq<int>>, resultK: nat, gtK: nat, k: nat): nat -> real
    requires Shaped(preds, gts, resultK, gtK) && k <= resultK
  {
    (q: nat) => if q < |preds| then RecallAt(preds[q], GtSet(gts[q], gtK), k) else 0.0
  }

  function QueryNdcg(preds: seq<seq<int>>, gts: seq<seq<int>>, resultK: nat, gtK: nat, disc: nat -> real,
                     k: nat): nat -> real
    requires Shaped(preds, gts, resultK, gtK) && k <= resultK
  {
    (q: nat) => if q < |preds| then Ndcg(preds[q], GtSet(gts[q], gtK), disc, k) else 0.0
  }

  // The curve of one ground-truth depth: averages over all queries.
  method GtMetricCurve(preds: seq<seq<int>>, gts: seq<seq<int>>, resultK: nat, gtK: nat, disc: nat -> real)
    returns (curve: Curve)
    requires Shaped(preds, gts, resultK, gtK) && |preds| > 0
    ensures |curve.recall| == |curve.ndcg| == resultK && curve.gtK == gtK
    ensures forall k | 0 <= k < resultK ::
      && curve.recall[k] == Quotient(SumOf(QueryRecall(preds, gts, resultK, gtK, k + 1), |preds|), |preds| as real)
      && curve.ndcg[k] == Quotient(SumOf(QueryNdcg(preds, gts, resultK, gtK, disc, k + 1), |preds|), |preds| as real)
  {
    hide RecallAt, Ndcg, GtSet, Quotient;
    curve := Curve(gtK, seq(resultK, _ => 0.0), seq(resultK, _ => 0.0));
    for q := 0 to |preds|
      invariant |curve.recall| == |curve.ndcg| == resultK && curve.gtK == gtK
      invariant forall k | 0 <= k < resultK :: curve.recall[k] == SumOf(QueryRecall(preds, gts, resultK, gtK, k + 1), q)
      invariant forall k | 0 <= k < resultK ::
        curve.ndcg[k] == SumOf(QueryNdcg(preds, gts, resultK, gtK, disc, k + 1), q)
    {
      curve := AddQuery(curve, preds[q], gts[q], disc);
    }
    var sum := curve;
    curve := Curve(gtK, seq(resultK, k requires 0 <= k < resultK => Quotient(sum.recall[k], |preds| as real)),
                   seq(resultK, k requires 0 <= k < resultK => Quotient(sum.ndcg[k], |preds| as real)));
  }

  lemma {:induction false} SumBound(value: nat -> real, n: nat)
    requires forall q | 0 <= q < n :: 0.0 <= value(q) <= 1.0
    ensures 0.0 <= SumOf(value, n) <= n as real
  {
    if n > 0 {
      SumBound(value, n - 1);
    }
  }

  // Averaged nDCG and recall stay between 0 and 1.
  lemma CurveBound(preds: seq<seq<int>>, gts: seq<seq<int>>, resultK: nat, gtK: nat, disc: nat -> real, k: nat)
    requires Shaped(preds, gts, resultK, gtK) && |preds| > 0 && Discount(disc) && k <= resultK
    ensures 0.0 <= Quotient(SumOf(QueryRecall(preds, gts, resultK, gtK, k), |preds|), |preds| as real) <= 1.0
    ensures 0.0 <= Quotient(SumOf(QueryNdcg(preds, gts, resultK, gtK, disc, k), |preds|), |preds| as real) <= 1.0
  {
    hide RecallAt, Ndcg, GtSet, Quotient;
    forall q | 0 <= q < |preds|
      ensures 0.0 <= QueryRecall(preds, gts, resultK, gtK, k)(q) <= 1.0
      ensures 0.0 <= QueryNdcg(preds, gts, resultK, gtK, disc, k)(q) <= 1.0
    {
      RecallBound(preds[q], GtSet(gts[q], gtK), k);
      NdcgBound(preds[q], GtSet(gts[q], gtK), disc, k);
    }
    SumBound(QueryRecall(preds, gts, resultK, gtK, k), |preds|);
    SumBound(QueryNdcg(preds, gts, resultK, gtK, disc, k), |preds|);
    QuotientBound(SumOf(QueryRecall(preds, gts, resultK, gtK, k), |preds|), |preds| as real);
    QuotientBound(SumOf(QueryNdcg(preds, gts, resultK, gtK, disc, k), |preds|), |preds| as real);
  }
}
