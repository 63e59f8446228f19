// What the quantiser's parts mean in terms of the samples themselves: rounding, filters, running weights,
// and everything that is stored for a layer.
module QuantizerMeaning {
  import opened Sorting
  import opened Vectors
  import opened Quantizer

  // ---- Rounding ----

  // To the nearest integer, halves to the even one.
  lemma RoundEvenIs(x: real)
    ensures var r := RoundEven(x);
      -1.0 <= 2.0 * (x - r as real) <= 1.0 && (Abs(2.0 * (x - r as real)) == 1.0 ==> r % 2 == 0)
  {
    var f := x.Floor;
    assert f as real <= x < (f + 1) as real;
  }

  // To the nearest integer, halves to the one further from zero.
  lemma RoundAwayIs(x: real)
    ensures var r := RoundAway(x);
      -1.0 <= 2.0 * (x - r as real) <= 1.0 && (Abs(2.0 * (x - r as real)) == 1.0 ==> Abs(r as real) > Abs(x))
  {
    if x >= 0.0 {
      var f := (x + 0.5).Floor;
      assert f as real <= x + 0.5 < (f + 1) as real;
    } else {
      var f := (-x + 0.5).Floor;
      assert f as real <= -x + 0.5 < (f + 1) as real;
    }
  }

  // ---- Which candidates are accepted ----

  lemma {:induction false} MaxRoundIs(xs: seq<real>, v: real)
    requires v >= 0.0
    ensures v >= MaxRound(xs) <==> forall k | 0 <= k < |xs| :: Abs(RoundAway(xs[k]) as real) <= v
  {
    hide RoundAway, Abs;
    if xs != [] {
      var n := |xs| - 1;
      MaxRoundIs(xs[..n], v);
      MaxRoundLast(xs);
      if forall k | 0 <= k < |xs| :: Abs(RoundAway(xs[k]) as real) <= v {
        forall k | 0 <= k < n
          ensures Abs(RoundAway(xs[..n][k]) as real) <= v
        {
          assert xs[..n][k] == xs[k];
        }
        assert Abs(RoundAway(xs[n]) as real) <= v;
      } else {
        var k :| 0 <= k < |xs| && Abs(RoundAway(xs[k]) as real) > v;
        assert k < n ==> xs[..n][k] == xs[k];
      }
    }
  }

  lemma MaxRoundLast(xs: seq<real>)
    requires xs != []
    ensures var n := |xs| - 1;
      var r, m := Abs(RoundAway(xs[n]) as real), MaxRound(xs[..n]);
      MaxRound(xs) == if r > m then r else m
  {
  }

  lemma {:induction false} SquaresPositive(w: seq<real>, q: seq<real>)
    requires |w| == |q| && forall k | 0 <= k < |w| :: w[k] >= 0.0
    ensures Moment(w, q, q) >= 0.0
    ensures Moment(w, q, q) > 0.0 <==> exists k :: 0 <= k < |w| && w[k] > 0.0 && q[k] != 0.0
  {
    hide Times;
    if w != [] {
      var n := |w| - 1;
      SquaresPositive(w[..n], q[..n]);
      SquareTermPositive(w[n], q[n]);
      if exists k :: 0 <= k < |w| && w[k] > 0.0 && q[k] != 0.0 {
        var k :| 0 <= k < |w| && w[k] > 0.0 && q[k] != 0.0;
        assert k < n ==> w[..n][k] > 0.0 && q[..n][k] != 0.0;
      }
    }
  }

  lemma SquareTermPositive(w: real, q: real)
    requires w >= 0.0
    ensures Times(w, Times(q, q)) >= 0.0
    ensures Times(w, Times(q, q)) > 0.0 <==> w > 0.0 && q != 0.0
  {
    hide Times;
    SquarePositive(q);
    if w > 0.0 && q != 0.0 {
      TimesPositive(w, Times(q, q));
    } else {
      ZeroProduct(w, q);
    }
  }

  lemma ZeroProduct(w: real, q: real)
    ensures w == 0.0 || q == 0.0 ==> Times(w, Times(q, q)) == 0.0
  {
  }

  // A candidate is accepted exactly when its amplitude is positive and, unless clipping is allowed, no
  // sample rounds beyond it, and some weighed sample gets a code other than 0.
  lemma AcceptedMeans(xs: seq<real>, ws: seq<real>, cfg: Config, hi: nat, p: real)
    requires |xs| == |ws| > 0 && forall k | 0 <= k < |ws| :: ws[k] >= 0.0
    ensures var s := Prepare(xs, ws);
      var v := Amax(s, cfg, p);
      Accepted(s, cfg, hi, p) <==>
        && v > 0.0 && (cfg.allowClip || forall k | 0 <= k < |xs| :: Abs(RoundAway(xs[k]) as real) <= v)
        && exists k :: 0 <= k < |xs| && ws[k] > 0.0 && CodeOf(xs[k], Step(v, hi), hi) != 0
  {
    hide Amax, CodeOf, RoundAway, Moment, Step;
    var s := Prepare(xs, ws);
    var v := Amax(s, cfg, p);
    if v > 0.0 {
      MaxRoundIs(xs, v);
      var q := CandidateCodes(s, cfg, hi, p);
      SquaresPositive(ws, q);
      if exists k :: 0 <= k < |xs| && ws[k] > 0.0 && CodeOf(xs[k], Step(v, hi), hi) != 0 {
        var k :| 0 <= k < |xs| && ws[k] > 0.0 && CodeOf(xs[k], Step(v, hi), hi) != 0;
        assert q[k] != 0.0;
      }
    }
  }

  // ---- Samples sorted by magnitude ----

  // at lists every index below n once.
  ghost predicate Permutation(at: seq<nat>, n: nat) {
    |at| == n && (forall k | 0 <= k < n :: at[k] < n) && Distinct(at)
  }

  function Ats(items: seq<Item>): (r: seq<nat>)
    ensures |r| == |items| && forall k | 0 <= k < |r| :: r[k] == items[k].at
  {
    seq(|items|, k requires 0 <= k < |items| => items[k].at)
  }

  // Entry k of the sorted magnitudes is that of sample at[k], and the running weights add up the positive
  // weights in the same order.
  lemma SortedSamples(xs: seq<real>, ws: seq<real>) returns (at: seq<nat>)
    requires |xs| == |ws|
    ensures Permutation(at, |xs|)
    ensures var s := Prepare(xs, ws); forall k | 0 <= k < |xs| ::
      && s.sorted[k] == Abs(xs[at[k]])
      && s.cumw[k] == (if k == 0 then 0.0 else s.cumw[k - 1]) + (if ws[at[k]] > 0.0 then ws[at[k]] else 0.0)
  {
    hide Sort, RunningWeight, Abs, ItemLess;
    SortPermutes(ItemLess, Items(xs, ws));
    var items, sorted := Items(xs, ws), Sort(ItemLess, Items(xs, ws));
    at := Ats(sorted);
    ItemsStay(xs, ws, sorted);
    forall k | 0 <= k < |sorted|
      ensures RunningWeight(sorted[..k + 1]) == (if k == 0 then 0.0 else RunningWeight(sorted[..k]))
        + (if sorted[k].weight > 0.0 then sorted[k].weight else 0.0)
    {
      RunningStep(sorted, k);
    }
  }

  lemma ItemsStay(xs: seq<real>, ws: seq<real>, sorted: seq<Item>)
    requires |xs| == |ws| == |sorted| && multiset(sorted) == multiset(Items(xs, ws))
    ensures Permutation(Ats(sorted), |xs|)
    ensures forall k | 0 <= k < |sorted| ::
      sorted[k].at < |xs| && sorted[k].mag == Abs(xs[sorted[k].at]) && sorted[k].weight == ws[sorted[k].at]
  {
    hide Abs;
    var items := Items(xs, ws);
    forall k | 0 <= k < |sorted|
      ensures sorted[k].at < |xs| && sorted[k] == items[sorted[k].at]
    {
      assert sorted[k] in multiset(sorted);
      assert sorted[k] in items;
    }
    forall j, k | 0 <= j < k < |sorted|
      ensures sorted[j].at != sorted[k].at
    {
      SameItem(items, sorted, j, k);
    }
  }

  lemma RunningStep(items: seq<Item>, k: nat)
    requires k < |items|
    ensures RunningWeight(items[..k + 1]) == (if k == 0 then 0.0 else RunningWeight(items[..k]))
      + (if items[k].weight > 0.0 then items[k].weight else 0.0)
  {
    assert items[..k + 1][..k] == items[..k];
  }

  // No item occurs twice among distinct ones.
  lemma SameItem(items: seq<Item>, sorted: seq<Item>, j: nat, k: nat)
    requires multiset(sorted) == multiset(items) && forall i | 0 <= i < |items| :: items[i].at == i
    requires j < k < |sorted|
    ensures sorted[j] != sorted[k]
  {
    assert sorted == sorted[..k] + sorted[k..];
    assert sorted[j] in sorted[..k] && sorted[k] in sorted[k..];
    OnceEach(items, sorted[j]);
  }

  lemma {:induction false} OnceEach(items: seq<Item>, x: Item)
    requires forall i | 0 <= i < |items| :: items[i].at == i
    ensures multiset(items)[x] <= 1
    ensures x.at >= |items| ==> multiset(items)[x] == 0
  {
    if items != [] {
      var n := |items| - 1;
      OnceEach(items[..n], x);
      assert items == items[..n] + [items[n]];
    }
  }

  // ---- What is stored for a layer ----

  function IsClipped(xs: seq<real>, delta: real, hi: nat): int -> bool
    requires delta > 0.0
  {
    (k: int) => 0 <= k < |xs| && Abs(RoundEven(xs[k] / delta) as real) > hi as real
  }

  lemma {:induction false} ClippedTally(xs: seq<real>, delta: real, hi: nat, n: nat)
    requires delta > 0.0 && n <= |xs|
    ensures Clipped(xs[..n], delta, hi) == Tally(IsClipped(xs, delta, hi), n)
  {
    hide RoundEven;
    if n > 0 {
      ClippedTally(xs, delta, hi, n - 1);
      assert xs[..n][..n - 1] == xs[..n - 1];
    }
  }

  lemma ClippedIs(xs: seq<real>, delta: real, hi: nat)
    requires delta > 0.0
    ensures Clipped(xs, delta, hi) == |set k | 0 <= k < |xs| && Abs(RoundEven(xs[k] / delta) as real) > hi as real|
  {
    hide RoundEven, Abs;
    assert xs[..|xs|] == xs;
    ClippedTally(xs, delta, hi, |xs|);
    TallyIsSize(IsClipped(xs, delta, hi), |xs|);
    assert (set k | 0 <= k < |xs| && IsClipped(xs, delta, hi)(k))
        == set k | 0 <= k < |xs| && Abs(RoundEven(xs[k] / delta) as real) > hi as real;
  }

  // The codes are those of the stored step. Without an accepted candidate the statistics are
  // the defaults; otherwise they are those of a listed percentile: its step, the share of samples that
  // rounded out of range, and as scale the fitted one or, without fitting, the step itself.
  lemma LayerMeans(s: Samples, cfg: Config, hi: nat, ps: seq<real>, st: Stats, q: seq<int>)
    requires |s.xs| == |s.ws| == |s.sorted| == |s.cumw| > 0 && LayerResult(s, cfg, hi, ps, st, q)
    ensures st.stepDelta > 0.0 && |q| == |s.xs|
    ensures forall k | 0 <= k < |q| :: q[k] == CodeOf(s.xs[k], st.stepDelta, hi)
    ensures if forall i | 0 <= i < |ps| :: !Accepted(s, cfg, hi, ps[i]) then st == Stats(100.0, 0.0, 1.0, 1.0)
      else
        && st.pUsed in ps && Accepted(s, cfg, hi, st.pUsed)
        && st.stepDelta * ((if hi > 1 then hi else 1) as real) == Amax(s, cfg, st.pUsed)
        && st.clipRatio * (|q| as real)
           == |set k | 0 <= k < |q| && Abs(RoundEven(s.xs[k] / st.stepDelta) as real) > hi as real| as real
        && (!cfg.fitScale ==> st.scale == st.stepDelta)
        && (cfg.fitScale ==> Times(st.scale, Moment(s.ws, Reals(q), Reals(q))) == Moment(s.ws, s.xs, Reals(q)))
  {
    hide Accepted, Amax, Step, CodeOf, Moment, Clipped, RoundEven, CandidateCost, Times;
    var best :| BestOf(s, cfg, hi, ps, |ps|, best) && st == StatsOf(best, |s.xs|)
                && st.stepDelta > 0.0 && q == Codes(s.xs, st.stepDelta, hi);
    ResultMeans(s, cfg, hi, ps, st, best);
  }

  lemma ResultMeans(s: Samples, cfg: Config, hi: nat, ps: seq<real>, st: Stats, best: Best)
    requires |s.xs| == |s.ws| == |s.sorted| == |s.cumw| > 0
    requires BestOf(s, cfg, hi, ps, |ps|, best) && st == StatsOf(best, |s.xs|) && st.stepDelta > 0.0
    ensures var q := Codes(s.xs, st.stepDelta, hi);
      if forall i | 0 <= i < |ps| :: !Accepted(s, cfg, hi, ps[i]) then st == Stats(100.0, 0.0, 1.0, 1.0)
      else
        && st.pUsed in ps && Accepted(s, cfg, hi, st.pUsed)
        && st.stepDelta * ((if hi > 1 then hi else 1) as real) == Amax(s, cfg, st.pUsed)
        && st.clipRatio * (|q| as real)
           == |set k | 0 <= k < |q| && Abs(RoundEven(s.xs[k] / st.stepDelta) as real) > hi as real| as real
        && (!cfg.fitScale ==> st.scale == st.stepDelta)
        && (cfg.fitScale ==> Times(st.scale, Moment(s.ws, Reals(q), Reals(q))) == Moment(s.ws, s.xs, Reals(q)))
  {
    hide Accepted, Amax, Step, Codes, Moment, Clipped, RoundEven, CandidateCost, Times, Abs, CandidateCodes;
    if best.Chosen? {
      ClippedIs(s.xs, st.stepDelta, hi);
      StepMeans(Amax(s, cfg, best.p), hi);
      RatioIs(best.clips, |s.xs|);
      var i :| 0 <= i < |ps| && ps[i] == best.p && FirstBelow(s, cfg, hi, ps, i, best.cost);
      AcceptedSome(s, cfg, hi, best.p);
    }
  }

  lemma RatioIs(a: nat, n: nat)
    requires n > 0
    ensures (a as real) / (n as real) * (n as real) == a as real
  {
  }

  lemma AcceptedSome(s: Samples, cfg: Config, hi: nat, p: real)
    requires |s.xs| == |s.ws| == |s.sorted| == |s.cumw| > 0 && Accepted(s, cfg, hi, p)
    ensures Amax(s, cfg, p) > 0.0
    ensures var q := CandidateCodes(s, cfg, hi, p);
      Moment(s.ws, q, q) > 0.0 && q == Reals(Codes(s.xs, Step(Amax(s, cfg, p), hi), hi))
  {
  }
}
