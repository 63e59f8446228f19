// Scalar quantisation of one layer of a group: percentile candidates, a least-squares scale, and
// the codes of the cheapest candidate.
module Quantizer {
  import opened Arith
  import opened Sorting
  import opened Vectors
  import opened ClusterCodec

  // ---- Rounding and clipping ----

  function Abs(x: real): real {
    if x < 0.0 then -x else x
  }

  // lrint in the default mode: to nearest, halves to even.
  function RoundEven(x: real): int {
    var f := x.Floor;
    var d := x - (f as real);
    if d < 0.5 then f else if d > 0.5 then f + 1 else if f % 2 == 0 then f else f + 1
  }

  // round: to nearest, halves away from zero.
  function RoundAway(x: real): int {
    if x >= 0.0 then (x + 0.5).Floor else -((-x + 0.5).Floor)
  }

  function Clip(q: int, hi: nat): int {
    if q > hi then hi else if -q > hi then -(hi as int) else q
  }

  function CodeOf(x: real, delta: real, hi: nat): (q: int)
    requires delta > 0.0
    ensures q <= hi && -q <= hi
  {
    Clip(RoundEven(x / delta), hi)
  }

  function Codes(xs: seq<real>, delta: real, hi: nat): (r: seq<int>)
    requires delta > 0.0
    ensures |r| == |xs| && forall k | 0 <= k < |r| :: r[k] == CodeOf(xs[k], delta, hi)
  {
    seq(|xs|, k requires 0 <= k < |xs| => CodeOf(xs[k], delta, hi))
  }

  // No integer is nearer to x / delta than its code, unless the code is clipped.
  lemma CodeIsNearest(x: real, delta: real, hi: nat, z: int)
    requires delta > 0.0 && z <= hi && -z <= hi
    ensures Abs(x / delta - (CodeOf(x, delta, hi) as real)) <= Abs(x / delta - (z as real))
  {
    NearestOrClipped(x / delta, hi, z);
  }

  lemma NearestOrClipped(y: real, hi: nat, z: int)
    requires z <= hi && -z <= hi
    ensures Abs(y - (Clip(RoundEven(y), hi) as real)) <= Abs(y - (z as real))
  {
    var f := y.Floor;
    assert f as real <= y < (f + 1) as real;
    assert z <= f || z >= f + 1;
  }

  // ---- Weighted moments ----

  // Sum of w * u * v.
  function Moment(w: seq<real>, u: seq<real>, v: seq<real>): real
    requires |w| == |u| == |v|
  {
    if w == [] then 0.0 else
      var n := |w| - 1;
      Moment(w[..n], u[..n], v[..n]) + Times(w[n], Times(u[n], v[n]))
  }

  function Reals(q: seq<int>): (r: seq<real>)
    ensures |r| == |q| && forall k | 0 <= k < |r| :: r[k] == q[k] as real
  {
    seq(|q|, k requires 0 <= k < |q| => q[k] as real)
  }

  // Weighted squared error of the codes q at scale s.
  function Sse(w: seq<real>, a: seq<real>, q: seq<real>, s: real): real
    requires |w| == |a| == |q|
  {
    if w == [] then 0.0 else
      var n := |w| - 1;
      Sse(w[..n], a[..n], q[..n], s) + Times(w[n], Times(a[n] - Times(s, q[n]), a[n] - Times(s, q[n])))
  }

  lemma SquareTerm(w: real, a: real, q: real, s: real)
    ensures Times(w, Times(a - Times(s, q), a - Times(s, q)))
         == Times(w, Times(a, a)) - 2.0 * Times(s, Times(w, Times(a, q))) + Times(Times(s, s), Times(w, Times(q, q)))
  {
    var x := s * q;
    assert (a - x) * (a - x) == a * a - 2.0 * (a * x) + x * x;
    assert w * (a * x) == s * (w * (a * q)) && w * (x * x) == (s * s) * (w * (q * q));
    Expand(w, a * a, a * x, x * x);
  }

  lemma Expand(w: real, x: real, y: real, z: real)
    ensures w * (x - 2.0 * y + z) == w * x - 2.0 * (w * y) + w * z
  {
  }

  lemma TimesAdd(s: real, x: real, y: real)
    ensures Times(s, x + y) == Times(s, x) + Times(s, y)
  {
  }

  lemma {:induction false} SseExpands(w: seq<real>, a: seq<real>, q: seq<real>, s: real)
    requires |w| == |a| == |q|
    ensures Sse(w, a, q, s) == Moment(w, a, a) - 2.0 * Times(s, Moment(w, a, q)) + Times(Times(s, s), Moment(w, q, q))
  {
    if w == [] {
      assert Times(s, 0.0) == 0.0 && Times(Times(s, s), 0.0) == 0.0;
    } else {
      hide Times;
      var n := |w| - 1;
      SseExpands(w[..n], a[..n], q[..n], s);
      SquareTerm(w[n], a[n], q[n], s);
      TimesAdd(s, Moment(w[..n], a[..n], q[..n]), Times(w[n], Times(a[n], q[n])));
      TimesAdd(Times(s, s), Moment(w[..n], q[..n], q[..n]), Times(w[n], Times(q[n], q[n])));
    }
  }

  function Over(a: real, b: real): (r: real)
    requires b > 0.0
    ensures Times(r, b) == a
  {
    a / b
  }

  // The cost the code computes: Sa2 - Saq^2 / Sq2.
  function FitCost(sa2: real, saq: real, sq2: real): real
    requires sq2 > 0.0
  {
    sa2 - Over(Times(saq, saq), sq2)
  }

  lemma CompleteSquare(sa2: real, saq: real, sq2: real, s: real)
    requires sq2 > 0.0
    ensures var t := Over(saq, sq2);
      sa2 - 2.0 * Times(s, saq) + Times(Times(s, s), sq2) == FitCost(sa2, saq, sq2) + (s - t) * (s - t) * sq2
  {
    var t := Over(saq, sq2);
    assert saq == t * sq2;
    assert saq * saq == (t * t * sq2) * sq2;
    CancelDivision(t * t * sq2, sq2);
    assert (s - t) * (s - t) == s * s - 2.0 * (s * t) + t * t;
    Expand(sq2, s * s, s * t, t * t);
  }

  lemma CancelDivision(x: real, b: real)
    requires b > 0.0
    ensures Over(x * b, b) == x
  {
  }

  lemma ZeroSquare(t: real, b: real)
    ensures (t - t) * (t - t) * b == 0.0
  {
  }

  lemma TimesSplit(m: real, p: real)
    ensures Times(m, p) + Times(m, 1.0 - p) == m
  {
  }

  lemma ProductSign(x: real, y: real)
    requires x >= 0.0 && y >= 0.0
    ensures x * y >= 0.0 && (x > 0.0 && y > 0.0 ==> x * y > 0.0)
  {
  }

  lemma SquareNonNegative(x: real, b: real)
    requires b >= 0.0
    ensures x * x * b >= 0.0
  {
    assert x * x >= 0.0;
  }

  // The cost is the least weighted squared error over all scales, reached at Saq / Sq2.
  lemma FitIsLeast(w: seq<real>, a: seq<real>, q: seq<real>, s: real)
    requires |w| == |a| == |q| && Moment(w, q, q) > 0.0
    ensures var cost := FitCost(Moment(w, a, a), Moment(w, a, q), Moment(w, q, q));
      && cost <= Sse(w, a, q, s)
      && cost == Sse(w, a, q, Over(Moment(w, a, q), Moment(w, q, q)))
  {
    hide Moment, Sse, Times, Over, FitCost;
    var sa2, saq, sq2 := Moment(w, a, a), Moment(w, a, q), Moment(w, q, q);
    var t := Over(saq, sq2);
    SseExpands(w, a, q, s);
    CompleteSquare(sa2, saq, sq2, s);
    SquareNonNegative(s - t, sq2);
    SseExpands(w, a, q, t);
    CompleteSquare(sa2, saq, sq2, t);
    ZeroSquare(t, sq2);
  }

  // ---- Quantiles ----

  ghost predicate Ascends(x: seq<real>) {
    forall i, j | 0 <= i <= j < |x| :: x[i] <= x[j]
  }

  // Type 7: linear interpolation between the order statistics around (n - 1) p.
  function QuantileType7Sorted(x: seq<real>, p01: real): real {
    var n := |x|;
    if n == 0 then 0.0
    else if p01 <= 0.0 then x[0]
    else if p01 >= 1.0 then x[n - 1]
    else
      var h := Times((n - 1) as real, p01) + 1.0;
      var j := h.Floor;
      if j >= n || j < 1 then x[n - 1]
      else Mix(h - (j as real), x[j - 1], x[j])
  }

  function Mix(g: real, a: real, b: real): real {
    (1.0 - g) * a + g * b
  }

  lemma MixBetween(g: real, a: real, b: real)
    requires 0.0 <= g <= 1.0 && a <= b
    ensures a <= Mix(g, a, b) <= b
  {
    assert Mix(g, a, b) == a + g * (b - a) == b - (1.0 - g) * (b - a);
    ProductSign(g, b - a);
    ProductSign(1.0 - g, b - a);
  }

  lemma MixGrows(g: real, g': real, a: real, b: real)
    requires g <= g' && a <= b
    ensures Mix(g, a, b) <= Mix(g', a, b)
  {
    assert Mix(g', a, b) - Mix(g, a, b) == (g' - g) * (b - a);
    ProductSign(g' - g, b - a);
  }

  // Where an inner quantile lies: between two neighbouring order statistics.
  lemma QuantileBracket(x: seq<real>, p01: real) returns (j: nat, g: real)
    requires |x| >= 2 && 0.0 < p01 < 1.0 && Ascends(x)
    ensures 1 <= j < |x| && 0.0 <= g < 1.0 && Times((|x| - 1) as real, p01) + 1.0 == (j as real) + g
    ensures QuantileType7Sorted(x, p01) == Mix(g, x[j - 1], x[j])
    ensures x[j - 1] <= QuantileType7Sorted(x, p01) <= x[j]
  {
    var n := |x|;
    var h := Times((n - 1) as real, p01) + 1.0;
    InnerRank((n - 1) as real, p01);
    j, g := h.Floor, h - (h.Floor as real);
    MixBetween(g, x[j - 1], x[j]);
  }

  lemma InnerRank(m: real, p: real)
    requires m > 0.0 && 0.0 < p < 1.0
    ensures 0.0 < Times(m, p) < m
  {
    hide Times;
    TimesPositive(m, p);
    TimesPositive(m, 1.0 - p);
    TimesSplit(m, p);
  }

  // Quantiles lie within the data and grow with p.
  lemma QuantileMonotone(x: seq<real>, p: real, p': real)
    requires x != [] && Ascends(x) && p <= p'
    ensures x[0] <= QuantileType7Sorted(x, p) <= QuantileType7Sorted(x, p') <= x[|x| - 1]
  {
    if |x| == 1 {
      OneValue(x, p);
      OneValue(x, p');
    } else {
      hide Mix, QuantileType7Sorted;
      QuantileEnds(x, p);
      QuantileEnds(x, p');
      if 0.0 < p && p' < 1.0 {
        var j, g := QuantileBracket(x, p);
        var j', g' := QuantileBracket(x, p');
        RankGrows((|x| - 1) as real, p, p');
        assert j <= j';
        if j == j' {
          MixGrows(g, g', x[j - 1], x[j]);
        } else {
          assert x[j] <= x[j' - 1];
        }
      }
    }
  }

  lemma OneValue(x: seq<real>, p: real)
    requires |x| == 1
    ensures QuantileType7Sorted(x, p) == x[0]
  {
    assert Times(0.0, p) == 0.0;
  }

  lemma RankGrows(m: real, p: real, p': real)
    requires m >= 0.0 && p <= p'
    ensures Times(m, p) <= Times(m, p')
  {
    ProductSign(m, p' - p);
    assert m * p + m * (p' - p) == m * p';
  }

  lemma QuantileEnds(x: seq<real>, p: real)
    requires |x| >= 2 && Ascends(x)
    ensures x[0] <= QuantileType7Sorted(x, p) <= x[|x| - 1]
    ensures p <= 0.0 ==> QuantileType7Sorted(x, p) == x[0]
    ensures p >= 1.0 ==> QuantileType7Sorted(x, p) == x[|x| - 1]
  {
    if 0.0 < p < 1.0 {
      var j, g := QuantileBracket(x, p);
      assert x[0] <= x[j - 1] && x[j] <= x[|x| - 1];
    }
  }

  // First position whose cumulative weight reaches the target.
  function LowerBound(c: seq<real>, target: real): (i: nat)
    ensures i <= |c| && (i < |c| ==> c[i] >= target) && forall k | 0 <= k < i :: c[k] < target
  {
    if c == [] then 0
    else
      var n := |c| - 1;
      var i := LowerBound(c[..n], target);
      if i < n || c[n] >= target then i else |c|
  }

  function WeightedQuantileStepSorted(x: seq<real>, cumw: seq<real>, p01: real): real
    requires |x| == |cumw|
  {
    if x == [] then 0.0
    else
      var total := cumw[|x| - 1];
      if total <= 0.0 then x[|x| - 1]
      else
        var i := LowerBound(cumw, Times(p01, total));
        if i >= |x| then x[|x| - 1] else x[i]
  }

  // The weighted quantile is the first sample whose running weight reaches the share p of the total;
  // like the other it lies within the data and grows with p, whatever the weights.
  lemma WeightedQuantileMonotone(x: seq<real>, cumw: seq<real>, p: real, p': real)
    requires x != [] && |x| == |cumw| && Ascends(x) && p <= p'
    ensures var q, q' := WeightedQuantileStepSorted(x, cumw, p), WeightedQuantileStepSorted(x, cumw, p');
      x[0] <= q <= q' <= x[|x| - 1]
    ensures var total := cumw[|x| - 1];
      total > 0.0 && p <= 1.0 ==>
        exists i :: 0 <= i < |x| && WeightedQuantileStepSorted(x, cumw, p) == x[i]
          && cumw[i] >= Times(p, total) && forall k | 0 <= k < i :: cumw[k] < Times(p, total)
  {
    hide LowerBound, Times;
    var total := cumw[|x| - 1];
    if total > 0.0 {
      ShareGrows(total, p, p');
      if p <= 1.0 {
        ShareGrows(total, p, 1.0);
        assert LowerBound(cumw, Times(p, total)) < |x|;
      }
    }
  }

  lemma ShareGrows(total: real, p: real, p': real)
    requires total > 0.0 && p <= p'
    ensures Times(p, total) <= Times(p', total) && Times(1.0, total) == total
  {
    RankGrows(total, p, p');
  }

  // ---- Candidates ----

  datatype Config = Config(weighted: bool, allowClip: bool, fitScale: bool)

  // One group's layer: samples, weights, and the sorted magnitudes with running weights.
  datatype Samples = Samples(xs: seq<real>, ws: seq<real>, sorted: seq<real>, cumw: seq<real>, maxRound: real)

  ghost predicate Prepared(s: Samples) {
    && |s.xs| == |s.ws| == |s.sorted| == |s.cumw| > 0
    && Ascends(s.sorted) && multiset(s.sorted) == multiset(Magnitudes(s.xs))
    && forall k | 0 <= k < |s.ws| :: s.ws[k] >= 0.0
  }

  function Magnitudes(xs: seq<real>): (r: seq<real>)
    ensures |r| == |xs| && forall k | 0 <= k < |r| :: r[k] == Abs(xs[k])
  {
    seq(|xs|, k requires 0 <= k < |xs| => Abs(xs[k]))
  }

  function Amax(s: Samples, cfg: Config, p: real): real
    requires |s.xs| == |s.ws| == |s.sorted| == |s.cumw| > 0
  {
    if p >= 100.0 then s.sorted[|s.sorted| - 1]
    else if cfg.weighted then WeightedQuantileStepSorted(s.sorted, s.cumw, p / 100.0)
    else QuantileType7Sorted(s.sorted, p / 100.0)
  }

  // v lies on the line through the points (j, x[j]) at abscissa h.
  ghost predicate Interpolates(x: seq<real>, h: real, v: real) {
    exists j: nat :: j < |x| && OnSegment(x, h, v, j)
  }

  ghost predicate OnSegment(x: seq<real>, h: real, v: real, j: nat)
    requires j < |x|
  {
    && j as real <= h < (j + 1) as real
    && v == if j == |x| - 1 then x[j] else Times((j + 1) as real - h, x[j]) + Times(h - j as real, x[j + 1])
  }

  // v is the first entry whose running weight reaches the target.
  ghost predicate FirstReaching(x: seq<real>, cumw: seq<real>, target: real, v: real) {
    && |x| == |cumw|
    && exists j :: 0 <= j < |x| && v == x[j] && cumw[j] >= target && forall i | 0 <= i < j :: cumw[i] < target
  }

  // What a percentile is: from 100 up the largest magnitude; weighted, the first magnitude whose running
  // weight reaches p / 100 of the total; otherwise the point p / 100 of the way along the sorted
  // magnitudes, interpolated between its two neighbours.
  lemma PercentileMeans(s: Samples, cfg: Config, p: real, v: real)
    requires |s.xs| == |s.ws| == |s.sorted| == |s.cumw| > 0 && v == Amax(s, cfg, p)
    ensures var x, n := s.sorted, |s.sorted|;
      && (p >= 100.0 ==> v == x[n - 1])
      && (!cfg.weighted && p <= 0.0 ==> v == x[0])
      && (!cfg.weighted && 0.0 < p < 100.0 ==> Interpolates(x, Times((n - 1) as real, p / 100.0), v))
      && (cfg.weighted && p < 100.0 ==>
            if s.cumw[n - 1] <= 0.0 then v == x[n - 1]
            else FirstReaching(x, s.cumw, Times(p / 100.0, s.cumw[n - 1]), v))
  {
    hide Interpolates, FirstReaching, Times;
    if p < 100.0 && cfg.weighted {
      WeightedMeans(s.sorted, s.cumw, p);
    } else if 0.0 < p < 100.0 {
      Type7Means(s.sorted, p);
    }
  }

  lemma Type7Means(x: seq<real>, p: real)
    requires x != [] && 0.0 < p < 100.0
    ensures Interpolates(x, Times((|x| - 1) as real, p / 100.0), QuantileType7Sorted(x, p / 100.0))
  {
    var n := |x|;
    if n == 1 {
      OneValue(x, p / 100.0);
      ZeroShare(p / 100.0);
      LineAt(x, 0.0, 0);
    } else {
      InnerRank((n - 1) as real, p / 100.0);
      Type7Line(x, Times((n - 1) as real, p / 100.0), p / 100.0);
    }
  }

  lemma ZeroShare(p: real)
    ensures Times(0 as real, p) == 0.0
  {
  }

  lemma Type7Line(x: seq<real>, h: real, p01: real)
    requires |x| > 1 && 0.0 < p01 < 1.0 && h == Times((|x| - 1) as real, p01) && 0.0 < h < (|x| - 1) as real
    ensures Interpolates(x, h, QuantileType7Sorted(x, p01))
  {
    hide Times, Mix, Interpolates;
    var j := h.Floor;
    assert (h + 1.0).Floor == j + 1;
    LineAt(x, h, j);
  }

  lemma LineAt(x: seq<real>, h: real, j: nat)
    requires j < |x| && j as real <= h < (j + 1) as real
    ensures Interpolates(x, h, if j == |x| - 1 then x[j] else Mix(h + 1.0 - (j + 1) as real, x[j], x[j + 1]))
  {
    hide Mix, Times;
    if j < |x| - 1 {
      MixIsLine(h, j, x[j], x[j + 1]);
      assert OnSegment(x, h, Mix(h + 1.0 - (j + 1) as real, x[j], x[j + 1]), j);
    } else {
      assert OnSegment(x, h, x[j], j);
    }
  }

  lemma MixIsLine(h: real, j: nat, a: real, b: real)
    ensures Mix(h + 1.0 - (j + 1) as real, a, b) == Times((j + 1) as real - h, a) + Times(h - j as real, b)
  {
  }

  lemma WeightedMeans(x: seq<real>, cumw: seq<real>, p: real)
    requires x != [] && |x| == |cumw| && p < 100.0
    ensures var n, v := |x|, WeightedQuantileStepSorted(x, cumw, p / 100.0);
      if cumw[n - 1] > 0.0 then FirstReaching(x, cumw, Times(p / 100.0, cumw[n - 1]), v) else v == x[n - 1]
  {
    hide LowerBound, Times;
    var total := cumw[|x| - 1];
    if total > 0.0 {
      ShareGrows(total, p / 100.0, 1.0);
      assert LowerBound(cumw, Times(p / 100.0, total)) < |x|;
    }
  }

  function Step(amax: real, hi: nat): (d: real)
    ensures amax > 0.0 ==> d > 0.0
  {
    amax / ((if hi > 1 then hi else 1) as real)
  }

  // The candidate passes the filters of the loop.
  predicate Accepted(s: Samples, cfg: Config, hi: nat, p: real)
    requires |s.xs| == |s.ws| == |s.sorted| == |s.cumw| > 0
  {
    && (cfg.allowClip || Amax(s, cfg, p) >= s.maxRound) && Amax(s, cfg, p) > 0.0
    && Moment(s.ws, CandidateCodes(s, cfg, hi, p), CandidateCodes(s, cfg, hi, p)) > 0.0
  }

  function CandidateCodes(s: Samples, cfg: Config, hi: nat, p: real): (r: seq<real>)
    requires |s.xs| == |s.ws| == |s.sorted| == |s.cumw| > 0 && Amax(s, cfg, p) > 0.0
    ensures |r| == |s.xs|
  {
    Reals(Codes(s.xs, Step(Amax(s, cfg, p), hi), hi))
  }

  function CandidateCost(s: Samples, cfg: Config, hi: nat, p: real): real
    requires |s.xs| == |s.ws| == |s.sorted| == |s.cumw| > 0 && Accepted(s, cfg, hi, p)
  {
    var q := CandidateCodes(s, cfg, hi, p);
    FitCost(Moment(s.ws, s.xs, s.xs), Moment(s.ws, s.xs, q), Moment(s.ws, q, q))
  }

  function Clipped(xs: seq<real>, delta: real, hi: nat): (c: nat)
    requires delta > 0.0
    ensures c <= |xs|
  {
    if xs == [] then 0
    else
      var n := |xs| - 1;
      Clipped(xs[..n], delta, hi) + (if RoundEven(xs[n] / delta) > hi || -RoundEven(xs[n] / delta) > hi then 1 else 0)
  }

  datatype Best = Nothing | Chosen(cost: real, p: real, delta: real, scale: real, clips: nat)

  // Every candidate before the i-th costs more.
  ghost predicate FirstBelow(s: Samples, cfg: Config, hi: nat, ps: seq<real>, i: nat, cost: real)
    requires |s.xs| == |s.ws| == |s.sorted| == |s.cumw| > 0 && i <= |ps|
  {
    forall j | 0 <= j < i :: Accepted(s, cfg, hi, ps[j]) ==> cost < CandidateCost(s, cfg, hi, ps[j])
  }

  // The chosen candidate is the first of the cheapest among the first n accepted ones.
  ghost predicate BestOf(s: Samples, cfg: Config, hi: nat, ps: seq<real>, n: nat, best: Best)
    requires |s.xs| == |s.ws| == |s.sorted| == |s.cumw| > 0 && n <= |ps|
  {
    match best
    case Nothing => forall i | 0 <= i < n :: !Accepted(s, cfg, hi, ps[i])
    case Chosen(cost, p, delta, scale, clips) =>
      && Accepted(s, cfg, hi, p) && (exists i :: 0 <= i < n && ps[i] == p && FirstBelow(s, cfg, hi, ps, i, cost))
      && delta == Step(Amax(s, cfg, p), hi) && clips == Clipped(s.xs, delta, hi)
      && cost == CandidateCost(s, cfg, hi, p) && scale == CandidateScale(s, cfg, hi, p)
      && forall i | 0 <= i < n :: Accepted(s, cfg, hi, ps[i]) ==> cost <= CandidateCost(s, cfg, hi, ps[i])
  }

  function CandidateScale(s: Samples, cfg: Config, hi: nat, p: real): real
    requires |s.xs| == |s.ws| == |s.sorted| == |s.cumw| > 0 && Accepted(s, cfg, hi, p)
  {
    var q := CandidateCodes(s, cfg, hi, p);
    if cfg.fitScale then Over(Moment(s.ws, s.xs, q), Moment(s.ws, q, q)) else Step(Amax(s, cfg, p), hi)
  }

  // With a fitted scale the stored codes and scale have exactly the best cost, and no accepted
  // candidate does better at any scale whatsoever.
  lemma QuantiserOptimum(s: Samples, cfg: Config, hi: nat, ps: seq<real>, best: Best, i: nat, scale: real)
    requires |s.xs| == |s.ws| == |s.sorted| == |s.cumw| > 0 && cfg.fitScale
    requires BestOf(s, cfg, hi, ps, |ps|, best) && best.Chosen?
    requires i < |ps| && Accepted(s, cfg, hi, ps[i])
    ensures best.delta > 0.0
    ensures Sse(s.ws, s.xs, Reals(Codes(s.xs, best.delta, hi)), best.scale) == best.cost
    ensures best.cost <= Sse(s.ws, s.xs, CandidateCodes(s, cfg, hi, ps[i]), scale)
  {
    hide Sse, Moment, FitCost, Over, Amax, Codes, Step;
    FitIsLeast(s.ws, s.xs, CandidateCodes(s, cfg, hi, best.p), 0.0);
    FitIsLeast(s.ws, s.xs, CandidateCodes(s, cfg, hi, ps[i]), scale);
  }

  // ---- Preparing the samples ----

  // Weight of a code: 1 without a table or past its end, 0 for the missing code 0.
  function GetWeightForSample(layer: nat, code1: nat, tables: seq<seq<real>>): real {
    if layer >= |tables| || tables[layer] == [] then 1.0
    else if code1 == 0 then 0.0
    else if code1 >= |tables[layer]| then 1.0
    else tables[layer][code1]
  }

  function SamplesAt(a: seq<real>, cells: seq<nat>): (r: seq<real>)
    requires Within(cells, |a|)
    ensures |r| == |cells| && forall k | 0 <= k < |r| :: r[k] == a[cells[k]]
  {
    seq(|cells|, k requires 0 <= k < |cells| => a[cells[k]])
  }

  function WeightsAt(cfg: Config, layer: nat, codes: seq<nat>, cells: seq<nat>, tables: seq<seq<real>>): (r: seq<real>)
    requires codes == [] || Within(cells, |codes|)
    ensures |r| == |cells|
    ensures forall k | 0 <= k < |r| ::
      r[k] == if !cfg.weighted then 1.0
              else GetWeightForSample(layer, if codes == [] then 0 else codes[cells[k]], tables)
  {
    seq(|cells|, k requires 0 <= k < |cells| =>
      if cfg.weighted then GetWeightForSample(layer, if codes == [] then 0 else codes[cells[k]], tables) else 1.0)
  }

  datatype Item = Item(mag: real, weight: real, at: nat)

  predicate ItemLess(a: Item, b: Item) {
    a.mag < b.mag || (a.mag == b.mag && (a.at < b.at || (a.at == b.at && a.weight < b.weight)))
  }

  function Items(xs: seq<real>, ws: seq<real>): (r: seq<Item>)
    requires |xs| == |ws|
    ensures |r| == |xs| && forall k | 0 <= k < |r| :: r[k] == Item(Abs(xs[k]), ws[k], k)
  {
    seq(|xs|, k requires 0 <= k < |xs| => Item(Abs(xs[k]), ws[k], k))
  }

  function Mags(items: seq<Item>): (r: seq<real>)
    ensures |r| == |items| && forall k | 0 <= k < |r| :: r[k] == items[k].mag
  {
    seq(|items|, k requires 0 <= k < |items| => items[k].mag)
  }

  function RunningWeight(items: seq<Item>): real {
    if items == [] then 0.0
    else
      var n := |items| - 1;
      RunningWeight(items[..n]) + (if items[n].weight > 0.0 then items[n].weight else 0.0)
  }

  function Cumulative(items: seq<Item>): (r: seq<real>)
    ensures |r| == |items| && forall k | 0 <= k < |r| :: r[k] == RunningWeight(items[..k + 1])
  {
    seq(|items|, k requires 0 <= k < |items| => RunningWeight(items[..k + 1]))
  }

  function MaxRound(xs: seq<real>): real {
    if xs == [] then 0.0
    else
      var n := |xs| - 1;
      var r, m := Abs(RoundAway(xs[n]) as real), MaxRound(xs[..n]);
      if r > m then r else m
  }

  function Prepare(xs: seq<real>, ws: seq<real>): (s: Samples)
    requires |xs| == |ws|
    ensures |s.xs| == |s.ws| == |s.sorted| == |s.cumw| == |xs|
  {
    SortPermutes(ItemLess, Items(xs, ws));
    var items := Sort(ItemLess, Items(xs, ws));
    Samples(xs, ws, Mags(items), Cumulative(items), MaxRound(xs))
  }

  lemma {:induction false} MagsPermute(a: seq<Item>, m: real)
    ensures multiset(Mags(a))[m] == CountMag(a, m)
  {
    if a == [] {
      assert Mags(a) == [];
    } else {
      var n := |a| - 1;
      MagsPermute(a[..n], m);
      assert Mags(a) == Mags(a[..n]) + [a[n].mag];
    }
  }

  function CountMag(a: seq<Item>, m: real): nat {
    if a == [] then 0 else CountMag(a[..|a| - 1], m) + (if a[|a| - 1].mag == m then 1 else 0)
  }

  lemma {:induction false} CountMagInsert(x: Item, s: seq<Item>, m: real)
    ensures CountMag(InsertSorted(ItemLess, x, s), m) == CountMag(s, m) + (if x.mag == m then 1 else 0)
  {
    if s == [] || !ItemLess(s[0], x) {
      CountMagCons(x, s, m);
    } else {
      CountMagInsert(x, s[1..], m);
      CountMagCons(s[0], InsertSorted(ItemLess, x, s[1..]), m);
      CountMagCons(s[0], s[1..], m);
      assert s == [s[0]] + s[1..];
    }
  }

  lemma {:induction false} CountMagCons(x: Item, s: seq<Item>, m: real)
    ensures CountMag([x] + s, m) == CountMag(s, m) + (if x.mag == m then 1 else 0)
  {
    var r := [x] + s;
    if s == [] {
      assert r == [x] && CountMag([x][..0], m) == 0;
    } else {
      var n := |s| - 1;
      CountMagCons(x, s[..n], m);
      assert r[..n + 1] == [x] + s[..n];
    }
  }

  lemma {:induction false} CountMagSort(s: seq<Item>, m: real)
    ensures CountMag(Sort(ItemLess, s), m) == CountMag(s, m)
  {
    if s != [] {
      CountMagSort(s[1..], m);
      CountMagInsert(s[0], Sort(ItemLess, s[1..]), m);
      CountMagCons(s[0], s[1..], m);
      assert s == [s[0]] + s[1..];
    }
  }

  lemma ItemTotal()
    ensures StrictTotal(ItemLess)
  {
  }

  // The sorted magnitudes ascend and are those of the samples.
  lemma PreparedHolds(xs: seq<real>, ws: seq<real>)
    requires |xs| == |ws| > 0 && forall k | 0 <= k < |ws| :: ws[k] >= 0.0
    ensures Prepared(Prepare(xs, ws))
  {
    hide Sort, RunningWeight, MaxRound, CountMag;
    var items := Items(xs, ws);
    var sorted := Sort(ItemLess, items);
    SortPermutes(ItemLess, items);
    MagsAscend(items);
    assert Mags(items) == Magnitudes(xs);
    forall m: real
      ensures multiset(Mags(sorted))[m] == multiset(Magnitudes(xs))[m]
    {
      MagsPermute(sorted, m);
      MagsPermute(items, m);
      CountMagSort(items, m);
    }
  }

  lemma MagsAscend(items: seq<Item>)
    ensures Ascends(Mags(Sort(ItemLess, items)))
  {
    ItemTotal();
    SortSorts(ItemLess, items);
    var sorted := Sort(ItemLess, items);
    forall i, j | 0 <= i <= j < |sorted|
      ensures sorted[i].mag <= sorted[j].mag
    {
      assert i < j ==> !ItemLess(sorted[j], sorted[i]);
    }
  }

  // ---- The loops ----

  lemma MomentStep(w: seq<real>, u: seq<real>, v: seq<real>, n: nat)
    requires |w| == |u| == |v| && n < |w|
    ensures Moment(w[..n + 1], u[..n + 1], v[..n + 1])
         == Moment(w[..n], u[..n], v[..n]) + Times(w[n], Times(u[n], v[n]))
    ensures Moment(w[..0], u[..0], v[..0]) == 0.0
  {
    assert w[..n + 1][..n] == w[..n] && u[..n + 1][..n] == u[..n] && v[..n + 1][..n] == v[..n];
  }

  method CollectSamples(cfg: Config, layer: nat, nc: nat, a: seq<real>, codes: seq<nat>, idx: seq<nat>,
                        tables: seq<seq<real>>) returns (s: Samples)
    requires Within(Row(nc, idx, layer), |a|) && (codes == [] || |codes| == |a|)
    ensures var cells := Row(nc, idx, layer);
      && s == Prepare(SamplesAt(a, cells), WeightsAt(cfg, layer, codes, cells, tables))
      && forall k | 0 <= k < |idx| ::
        var code := if codes == [] then 0 else codes[cells[k]];
        && s.xs[k] == a[cells[k]]
        && s.ws[k] == if !cfg.weighted || layer >= |tables| || |tables[layer]| == 0 then 1.0
                      else if code == 0 then 0.0
                      else if code < |tables[layer]| then tables[layer][code] else 1.0
  {
    hide MaxRound, RoundAway;
    ghost var cells := Row(nc, idx, layer);
    ghost var allXs, allWs := SamplesAt(a, cells), WeightsAt(cfg, layer, codes, cells, tables);
    var xs: seq<real>, ws: seq<real>, maxRound := [], [], 0.0;
    NoRound();
    for k := 0 to |idx|
      invariant xs == allXs[..k] && ws == allWs[..k] && maxRound == MaxRound(allXs[..k])
    {
      var aval := a[layer * nc + idx[k]];
      assert cells[k] == Cell(nc, layer, idx[k]) && aval == allXs[k];
      xs := xs + [aval];
      ws := ws + [if cfg.weighted then
                    GetWeightForSample(layer, if codes == [] then 0 else codes[layer * nc + idx[k]], tables)
                  else 1.0];
      RoundMore(allXs, k);
      var r := Abs(RoundAway(aval) as real);
      if r > maxRound {
        maxRound := r;
      }
    }
    assert allXs[..|idx|] == allXs && allWs[..|idx|] == allWs;
    SortPermutes(ItemLess, Items(xs, ws));
    var items := Sort(ItemLess, Items(xs, ws));
    var cumw := RunWeights(items);
    s := Samples(xs, ws, Mags(items), cumw, maxRound);
  }

  lemma NoRound()
    ensures MaxRound([]) == 0.0
  {
  }

  lemma RoundMore(xs: seq<real>, k: nat)
    requires k < |xs|
    ensures MaxRound(xs[..k + 1]) ==
      (var r, m := Abs(RoundAway(xs[k]) as real), MaxRound(xs[..k]); if r > m then r else m)
  {
    assert xs[..k + 1][..k] == xs[..k];
  }

  method RunWeights(items: seq<Item>) returns (cumw: seq<real>)
    ensures cumw == Cumulative(items)
  {
    cumw := [];
    var run := 0.0;
    for i := 0 to |items|
      invariant |cumw| == i && run == RunningWeight(items[..i])
      invariant forall k | 0 <= k < i :: cumw[k] == RunningWeight(items[..k + 1])
    {
      assert items[..i + 1][..i] == items[..i];
      run := run + (if items[i].weight > 0.0 then items[i].weight else 0.0);
      cumw := cumw + [run];
    }
  }

  // The three moments and the clip count of one candidate.
  method Measure(s: Samples, delta: real, hi: nat) returns (sa2: real, saq: real, sq2: real, clips: nat)
    requires |s.xs| == |s.ws| && delta > 0.0
    ensures var q := Reals(Codes(s.xs, delta, hi));
      sa2 == Moment(s.ws, s.xs, s.xs) && saq == Moment(s.ws, s.xs, q) && sq2 == Moment(s.ws, q, q)
    ensures clips == Clipped(s.xs, delta, hi)
  {
    hide Moment, Times, RoundEven, Clipped;
    ghost var qs := Reals(Codes(s.xs, delta, hi));
    sa2, saq, sq2, clips := 0.0, 0.0, 0.0, 0;
    NoMoment();
    for k := 0 to |s.xs|
      invariant sa2 == Moment(s.ws[..k], s.xs[..k], s.xs[..k]) && saq == Moment(s.ws[..k], s.xs[..k], qs[..k])
      invariant sq2 == Moment(s.ws[..k], qs[..k], qs[..k]) && clips == Clipped(s.xs[..k], delta, hi)
    {
      MomentStep(s.ws, s.xs, s.xs, k);
      MomentStep(s.ws, s.xs, qs, k);
      MomentStep(s.ws, qs, qs, k);
      ClippedStep(s.xs, delta, hi, k);
      var q := RoundEven(s.xs[k] / delta);
      if q > hi {
        q := hi;
        clips := clips + 1;
      } else if -q > hi {
        q := -(hi as int);
        clips := clips + 1;
      }
      assert q == CodeOf(s.xs[k], delta, hi);
      sa2 := sa2 + Times(s.ws[k], Times(s.xs[k], s.xs[k]));
      saq := saq + Times(s.ws[k], Times(s.xs[k], q as real));
      sq2 := sq2 + Times(s.ws[k], Times(q as real, q as real));
    }
    assert s.xs[..|s.xs|] == s.xs && s.ws[..|s.xs|] == s.ws && qs[..|s.xs|] == qs;
  }

  lemma NoMoment()
    ensures Moment([], [], []) == 0.0 && forall delta: real, hi: nat | delta > 0.0 :: Clipped([], delta, hi) == 0
  {
  }

  lemma ClippedStep(xs: seq<real>, delta: real, hi: nat, k: nat)
    requires delta > 0.0 && k < |xs|
    ensures var q := RoundEven(xs[k] / delta);
      Clipped(xs[..k + 1], delta, hi) == Clipped(xs[..k], delta, hi) + (if q > hi || -q > hi then 1 else 0)
  {
    assert xs[..k + 1][..k] == xs[..k];
  }

  // The step times the largest code is the amplitude.
  lemma StepMeans(amax: real, hi: nat)
    ensures Step(amax, hi) * ((if hi > 1 then hi else 1) as real) == amax
  {
  }

  // One turn of the candidate loop. The chosen step times the largest code is the p-th percentile of the
  // sorted magnitudes, in the terms of PercentileMeans.
  method TryCandidate(s: Samples, cfg: Config, hi: nat, ps: seq<real>, i: nat, best: Best) returns (r: Best)
    requires |s.xs| == |s.ws| == |s.sorted| == |s.cumw| > 0 && i < |ps| && BestOf(s, cfg, hi, ps, i, best)
    ensures BestOf(s, cfg, hi, ps, i + 1, r)
    ensures r.Chosen? ==>
      var x, n, v := s.sorted, |s.sorted|, r.delta * ((if hi > 1 then hi else 1) as real);
      && (r.p >= 100.0 ==> v == x[n - 1])
      && (!cfg.weighted && r.p <= 0.0 ==> v == x[0])
      && (!cfg.weighted && 0.0 < r.p < 100.0 ==> Interpolates(x, Times((n - 1) as real, r.p / 100.0), v))
      && (cfg.weighted && r.p < 100.0 ==>
            if s.cumw[n - 1] <= 0.0 then v == x[n - 1]
            else FirstReaching(x, s.cumw, Times(r.p / 100.0, s.cumw[n - 1]), v))
  {
    hide Times, Interpolates, FirstReaching, Amax, Step, Accepted, CandidateCost, CandidateScale, Clipped, FirstBelow;
    r := TryOne(s, cfg, hi, ps, i, best);
    if r.Chosen? {
      StepMeans(Amax(s, cfg, r.p), hi);
      PercentileMeans(s, cfg, r.p, r.delta * ((if hi > 1 then hi else 1) as real));
    }
  }

  method TryOne(s: Samples, cfg: Config, hi: nat, ps: seq<real>, i: nat, best: Best) returns (r: Best)
    requires |s.xs| == |s.ws| == |s.sorted| == |s.cumw| > 0 && i < |ps| && BestOf(s, cfg, hi, ps, i, best)
    ensures BestOf(s, cfg, hi, ps, i + 1, r)
  {
    hide Amax, Moment, FitCost, Over, Clipped, Codes, Step;
    r := best;
    var amax := Amax(s, cfg, ps[i]);
    if !cfg.allowClip && amax < s.maxRound {
      return;
    }
    if !(amax > 0.0) {
      return;
    }
    var delta := Step(amax, hi);
    var sa2, saq, sq2, clips := Measure(s, delta, hi);
    if sq2 <= 0.0 {
      return;
    }
    var cost := FitCost(sa2, saq, sq2);
    var scale := if cfg.fitScale then Over(saq, sq2) else delta;
    if best.Nothing? || cost < best.cost {
      r := Chosen(cost, ps[i], delta, scale, clips);
    }
  }

  method ChooseBest(s: Samples, cfg: Config, hi: nat, ps: seq<real>) returns (best: Best)
    requires |s.xs| == |s.ws| == |s.sorted| == |s.cumw| > 0
    ensures BestOf(s, cfg, hi, ps, |ps|, best)
  {
    hide Accepted, CandidateCost, CandidateScale, Amax;
    best := Nothing;
    for i := 0 to |ps|
      invariant BestOf(s, cfg, hi, ps, i, best)
    {
      best := TryCandidate(s, cfg, hi, ps, i, best);
    }
  }

  datatype Stats = Stats(pUsed: real, clipRatio: real, stepDelta: real, scale: real)

  const NO_STATS: Stats := Stats(100.0, 0.0, 1.0, 1.0)

  function StatsOf(best: Best, n: nat): Stats
    requires n > 0
  {
    match best
    case Nothing => NO_STATS
    case Chosen(_, p, delta, scale, clips) => Stats(p, (clips as real) / (n as real), delta, scale)
  }

  // The layer's statistics and codes for a group: those of the best candidate, or of step 1 when
  // no candidate is accepted.
  ghost predicate LayerResult(s: Samples, cfg: Config, hi: nat, ps: seq<real>, st: Stats, q: seq<int>)
    requires |s.xs| == |s.ws| == |s.sorted| == |s.cumw| > 0
  {
    exists best :: BestOf(s, cfg, hi, ps, |ps|, best) && st == StatsOf(best, |s.xs|)
                   && st.stepDelta > 0.0 && q == Codes(s.xs, st.stepDelta, hi)
  }

  function Gathered(q: seq<int>, cells: seq<nat>): (r: seq<int>)
    requires Within(cells, |q|)
    ensures |r| == |cells| && forall k | 0 <= k < |r| :: r[k] == q[cells[k]]
  {
    seq(|cells|, k requires 0 <= k < |cells| => q[cells[k]])
  }

  // Writes the group's codes of one layer and nothing else.
  method QuantizeOneGroupOneLayer(layer: nat, bits: nat, nc: nat, a: seq<real>, codes: seq<nat>, idx: seq<nat>,
                                  tables: seq<seq<real>>, ps: seq<real>, cfg: Config,
                                  qOut: array<int>) returns (st: Stats)
    requires bits >= 1 && |a| == qOut.Length && Within(Row(nc, idx, layer), |a|) && (codes == [] || |codes| == |a|)
    modifies qOut
    ensures idx == [] ==> st == NO_STATS && qOut[..] == old(qOut[..])
    ensures var cells := Row(nc, idx, layer);
      && (idx != [] ==> LayerResult(Prepare(SamplesAt(a, cells), WeightsAt(cfg, layer, codes, cells, tables)),
                                    cfg, QFromBits(bits), ps, st, Gathered(qOut[..], cells)))
      && forall p | 0 <= p < qOut.Length && p !in cells :: qOut[p] == old(qOut[p])
  {
    hide Prepare, BestOf, CodeOf, GetWeightForSample;
    var hi := QFromBits(bits);
    if idx == [] {
      return NO_STATS;
    }
    ghost var cells := Row(nc, idx, layer);
    var s := CollectSamples(cfg, layer, nc, a, codes, idx, tables);
    ghost var xs, ws := SamplesAt(a, cells), WeightsAt(cfg, layer, codes, cells, tables);
    PrepareKeeps(xs, ws);
    var best := ChooseBest(s, cfg, hi, ps);
    BestStep(s, cfg, hi, ps, best);
    st := StatsOf(best, |idx|);
    EmitCodes(layer, nc, a, idx, st.stepDelta, hi, qOut);
    assert Gathered(qOut[..], cells) == Codes(s.xs, st.stepDelta, hi);
  }

  // Writes the codes of the chosen step.
  method EmitCodes(layer: nat, nc: nat, a: seq<real>, idx: seq<nat>, delta: real, hi: nat, qOut: array<int>)
    requires delta > 0.0 && |a| == qOut.Length && Within(Row(nc, idx, layer), |a|)
    modifies qOut
    ensures var cells := Row(nc, idx, layer);
      && (forall k | 0 <= k < |idx| :: qOut[cells[k]] == CodeOf(SamplesAt(a, cells)[k], delta, hi))
      && forall p | 0 <= p < qOut.Length && p !in cells :: qOut[p] == old(qOut[p])
  {
    hide CodeOf;
    ghost var cells := Row(nc, idx, layer);
    ghost var xs := SamplesAt(a, cells);
    for k := 0 to |idx|
      invariant forall j | 0 <= j < k :: qOut[cells[j]] == CodeOf(xs[j], delta, hi)
      invariant forall p | 0 <= p < qOut.Length && p !in cells :: qOut[p] == old(qOut[p])
    {
      assert cells[k] == Cell(nc, layer, idx[k]) && cells[k] in cells;
      var q := RoundEven(a[layer * nc + idx[k]] / delta);
      CodeIsClip(xs[k], delta, hi);
      if q > hi {
        q := hi;
      }
      if -q > hi {
        q := -(hi as int);
      }
      qOut[layer * nc + idx[k]] := q;
    }
  }

  lemma CodeIsClip(x: real, delta: real, hi: nat)
    requires delta > 0.0
    ensures CodeOf(x, delta, hi) == Clip(RoundEven(x / delta), hi)
  {
  }

  lemma PrepareKeeps(xs: seq<real>, ws: seq<real>)
    requires |xs| == |ws|
    ensures Prepare(xs, ws).xs == xs && Prepare(xs, ws).ws == ws
  {
  }

  lemma BestStep(s: Samples, cfg: Config, hi: nat, ps: seq<real>, best: Best)
    requires |s.xs| == |s.ws| == |s.sorted| == |s.cumw| > 0 && BestOf(s, cfg, hi, ps, |ps|, best)
    ensures StatsOf(best, |s.xs|).stepDelta > 0.0
  {
  }

  // Every code a layer emits lies in its bit range.
  lemma CodesInRange(s: Samples, cfg: Config, hi: nat, ps: seq<real>, st: Stats, q: seq<int>)
    requires |s.xs| == |s.ws| == |s.sorted| == |s.cumw| > 0 && LayerResult(s, cfg, hi, ps, st, q)
    ensures forall k | 0 <= k < |q| :: q[k] <= hi && -q[k] <= hi
  {
  }

  // The layer's codes and scale beat every accepted candidate at every scale.
  lemma LayerOptimum(s: Samples, cfg: Config, hi: nat, ps: seq<real>, st: Stats, q: seq<int>, i: nat, scale: real)
    requires |s.xs| == |s.ws| == |s.sorted| == |s.cumw| > 0 && cfg.fitScale
    requires LayerResult(s, cfg, hi, ps, st, q) && i < |ps| && Accepted(s, cfg, hi, ps[i])
    ensures |q| == |s.xs|
    ensures Sse(s.ws, s.xs, Reals(q), st.scale) <= Sse(s.ws, s.xs, CandidateCodes(s, cfg, hi, ps[i]), scale)
  {
    hide Sse, Accepted, Codes, CandidateCodes, CandidateCost;
    var best :| BestOf(s, cfg, hi, ps, |ps|, best) && st == StatsOf(best, |s.xs|)
                && st.stepDelta > 0.0 && q == Codes(s.xs, st.stepDelta, hi);
    QuantiserOptimum(s, cfg, hi, ps, best, i, scale);
  }
}
