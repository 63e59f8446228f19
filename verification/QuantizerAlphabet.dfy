// Exactly which alphabets hold everything the quantiser may emit.
module QuantizerAlphabet {
  import opened Arith
  import opened Sorting
  import opened ClusterCodec
  import opened Quantizer
  import opened ClusterQuantizer

  // ---- Some candidate is always the best ----

  ghost predicate Sized(s: Samples) {
    |s.xs| == |s.ws| == |s.sorted| == |s.cumw| > 0
  }

  lemma {:induction false} BestExists(s: Samples, cfg: Config, hi: nat, ps: seq<real>, n: nat) returns (best: Best)
    requires Sized(s) && n <= |ps|
    ensures BestOf(s, cfg, hi, ps, n, best)
  {
    hide Amax, Moment, CandidateCodes, CandidateScale, CandidateCost, Clipped, Step, Accepted;
    if n == 0 {
      return Nothing;
    }
    best := BestExists(s, cfg, hi, ps, n - 1);
    if Accepted(s, cfg, hi, ps[n - 1]) {
      if best.Nothing? || CandidateCost(s, cfg, hi, ps[n - 1]) < best.cost {
        best := Candidate(s, cfg, hi, ps[n - 1]);
      }
    }
  }

  function Candidate(s: Samples, cfg: Config, hi: nat, p: real): Best
    requires Sized(s) && Accepted(s, cfg, hi, p)
  {
    var delta := Step(Amax(s, cfg, p), hi);
    Chosen(CandidateCost(s, cfg, hi, p), p, delta, CandidateScale(s, cfg, hi, p), Clipped(s.xs, delta, hi))
  }

  // ---- Samples that are already extreme codes ----

  // Every sample is c, which is hi or -hi.
  ghost predicate Constant(xs: seq<real>, c: int, hi: nat) {
    1 <= hi && (c == hi || c == -(hi as int)) && forall k | 0 <= k < |xs| :: xs[k] == c as real
  }

  ghost predicate AllAre(sorted: seq<real>, v: real) {
    forall k | 0 <= k < |sorted| :: sorted[k] == v
  }

  lemma ConstantSorted(xs: seq<real>, ws: seq<real>, c: int, hi: nat)
    requires |xs| == |ws| && Constant(xs, c, hi)
    ensures AllAre(Prepare(xs, ws).sorted, hi as real)
  {
    var items := Items(xs, ws);
    var sorted := Sort(ItemLess, items);
    SortPermutes(ItemLess, items);
    forall k | 0 <= k < |sorted|
      ensures sorted[k].mag == hi as real
    {
      assert sorted[k] in multiset(sorted);
      assert sorted[k] in items;
    }
  }

  // Whatever the percentile and the weights, the amplitude is the common magnitude.
  lemma ConstantAmax(s: Samples, cfg: Config, p: real, v: real)
    requires Sized(s) && AllAre(s.sorted, v)
    ensures Amax(s, cfg, p) == v
  {
    hide QuantileType7Sorted;
    QuantileMonotone(s.sorted, p / 100.0, p / 100.0);
  }

  lemma ExtremeCode(c: int, hi: nat)
    requires 1 <= hi && (c == hi || c == -(hi as int))
    ensures Step(hi as real, hi) == 1.0 && CodeOf(c as real, 1.0, hi) == c
  {
    assert (hi as real) / (hi as real) == 1.0;
    assert (c as real) / 1.0 == c as real;
    assert (c as real).Floor == c;
  }

  // Such samples are coded as themselves, whichever candidate is chosen and even when none is.
  lemma ConstantLayer(xs: seq<real>, ws: seq<real>, cfg: Config, hi: nat, ps: seq<real>, c: int, q: seq<int>)
    returns (st: Stats)
    requires |xs| == |ws| == |q| > 0 && Constant(xs, c, hi) && forall k | 0 <= k < |q| :: q[k] == c
    ensures LayerResult(Prepare(xs, ws), cfg, hi, ps, st, q)
  {
    hide Prepare, BestOf, CodeOf, Step, Amax;
    var s := Prepare(xs, ws);
    PrepareKeeps(xs, ws);
    ConstantSorted(xs, ws, c, hi);
    ExtremeCode(c, hi);
    var best := BestExists(s, cfg, hi, ps, |ps|);
    st := StatsOf(best, |s.xs|);
    if best.Chosen? {
      ChosenStep(s, cfg, hi, ps, best);
      ConstantAmax(s, cfg, best.p, hi as real);
    }
    assert q == Codes(s.xs, 1.0, hi);
  }

  lemma ChosenStep(s: Samples, cfg: Config, hi: nat, ps: seq<real>, best: Best)
    requires Sized(s) && BestOf(s, cfg, hi, ps, |ps|, best) && best.Chosen?
    ensures best.delta == Step(Amax(s, cfg, best.p), hi)
  {
  }

  // ---- The whole cluster ----

  function SignedCode(x: Input, positive: bool, l: nat): int
    requires l < x.m && EachAtLeastOne(x.bits)
  {
    if positive then TopCode(x, l) else 0 - TopCode(x, l)
  }

  function LayerOf(nc: nat, p: nat): nat
    requires nc > 0
  {
    p / nc
  }

  lemma LayerOfCell(nc: nat, l: nat, i: nat)
    requires i < nc
    ensures LayerOf(nc, Cell(nc, l, i)) == l
  {
    DivUnique(Cell(nc, l, i), nc, l, i);
  }

  lemma LayerInRange(m: nat, nc: nat, p: nat)
    requires p < m * nc
    ensures nc > 0 && LayerOf(nc, p) < m
  {
    var l, i := RowOf(m, nc, p);
    LayerOfCell(nc, l, i);
  }

  // Row l holds, in every cell, its layer's largest code with the given sign.
  function ExtremeCodes(x: Input, positive: bool): (q: seq<int>)
    requires EachAtLeastOne(x.bits)
    ensures |q| == x.m * x.nc
  {
    seq(x.m * x.nc, p requires 0 <= p < x.m * x.nc =>
      LayerInRange(x.m, x.nc, p); SignedCode(x, positive, LayerOf(x.nc, p)))
  }

  function ExtremeInput(x: Input, positive: bool): (x': Input)
    requires EachAtLeastOne(x.bits)
    ensures x' == x.(a := x'.a) && x'.a == Reals(ExtremeCodes(x, positive))
  {
    x.(a := Reals(ExtremeCodes(x, positive)))
  }

  lemma ExtremeAt(x: Input, positive: bool, l: nat, i: nat)
    requires l < x.m && i < x.nc && EachAtLeastOne(x.bits)
    ensures var p := Cell(x.nc, l, i);
      p < |ExtremeCodes(x, positive)| && ExtremeCodes(x, positive)[p] == SignedCode(x, positive, l)
  {
    hide SignedCode, LayerOf, Cell;
    CellBound(x.m, x.nc, l, i);
    LayerOfCell(x.nc, l, i);
  }

  lemma SameShape(x: Input, positive: bool)
    requires Shaped(x) && GoodBits(x) && EachAtLeastOne(x.bits)
    ensures var x' := ExtremeInput(x, positive); Shaped(x') && GoodBits(x') && |x'.a| == |ExtremeCodes(x, positive)|
  {
    hide ExtremeCodes, ExpandBitsPerLayer;
    assert forall l | 0 <= l < x.m :: BitsAt(ExtremeInput(x, positive), l) == BitsAt(x, l);
  }

  // The quantiser, under any percentiles, weights and mask, may emit its extreme input unchanged.
  lemma ExtremeLayer(x: Input, positive: bool, linkage: bool, l: nat) returns (st: Stats)
    requires Shaped(x) && GoodBits(x) && EachAtLeastOne(x.bits) && l < x.m
    ensures var x', q := ExtremeInput(x, positive), ExtremeCodes(x, positive);
      Shaped(x') && |q| == |x'.a| && BitsAt(x', l) >= 1 && LayerDone(x', linkage, l, st, q)
  {
    hide Prepare, WeightsAt, Members, ExpandBitsPerLayer, LayerResult, QFromBits, ExtremeCodes;
    SameShape(x, positive);
    var x', q := ExtremeInput(x, positive), ExtremeCodes(x, positive);
    var idx := Members(x.nc, x.mask, linkage);
    RowWithin(x.m, x.nc, idx, l);
    var cells := Row(x.nc, idx, l);
    if idx == [] {
      return NO_STATS;
    }
    var c := SignedCode(x, positive, l);
    CodeByte(x, l);
    forall k | 0 <= k < |cells|
      ensures q[cells[k]] == c
    {
      ExtremeAt(x, positive, l, idx[k]);
    }
    st := ConstantLayer(SamplesAt(x'.a, cells),
                        WeightsAt(x.cfg, l, x.codes, cells, if linkage then x.linkageNorms else x.rootNorms),
                        x.cfg, TopCode(x, l), x.candidates[l], c, Gathered(q, cells));
  }

  lemma ExtremeLayers(x: Input, positive: bool, linkage: bool) returns (st: seq<Stats>)
    requires Shaped(x) && GoodBits(x) && EachAtLeastOne(x.bits)
    ensures var x', q := ExtremeInput(x, positive), ExtremeCodes(x, positive);
      Shaped(x') && GoodBits(x') && |q| == |x'.a| && |st| == x.m && LayersDone(x', linkage, x.m, st, q)
  {
    hide LayerDone, ExpandBitsPerLayer, ExtremeCodes, ExtremeInput;
    SameShape(x, positive);
    st := [];
    var x', q := ExtremeInput(x, positive), ExtremeCodes(x, positive);
    for l := 0 to x.m
      invariant Shaped(x') && GoodBits(x') && |q| == |x'.a| && |st| == l && LayersDone(x', linkage, l, st, q)
    {
      var s := ExtremeLayer(x, positive, linkage, l);
      st := st + [s];
    }
  }

  lemma ExtremeEmitted(x: Input, positive: bool)
    requires Shaped(x) && GoodBits(x) && EachAtLeastOne(x.bits)
    ensures Emits(ExtremeInput(x, positive), ExtremeCodes(x, positive))
  {
    hide LayersDone, ExtremeCodes, ExtremeInput;
    var root := ExtremeLayers(x, positive, false);
    var linkage := ExtremeLayers(x, positive, true);
  }

  // ---- The exact condition ----

  // Everything the quantiser may emit for any samples, with the rest of the input as given.
  ghost predicate AlwaysCodable(x: Input, cfg: HuffmanConfig)
    requires EachAtLeastOne(x.bits)
  {
    var size := AlphabetSize(cfg, QMax(x.bits));
    forall a: seq<real>, q: seq<int> | Emits(x.(a := a), q) :: Codable(q, EncoderBase(size, QMax(x.bits)), size)
  }

  // A layer that is not covered: some cell of its row has no symbol.
  lemma Uncovered(x: Input, cfg: HuffmanConfig, l: nat, positive: bool)
    requires Shaped(x) && GoodBits(x) && EachAtLeastOne(x.bits) && x.nc > 0 && l < x.m
    requires AlphabetSize(cfg, QMax(x.bits)) != 256
    requires if positive then QMax(x.bits) + TopCode(x, l) >= AlphabetSize(cfg, QMax(x.bits)) else x.bits == []
    ensures !AlwaysCodable(x, cfg)
  {
    hide Emits, ExtremeCodes, QFromBits;
    var size := AlphabetSize(cfg, QMax(x.bits));
    var q := ExtremeCodes(x, positive);
    ExtremeEmitted(x, positive);
    ExtremeAt(x, positive, l, 0);
    CodeByte(x, l);
    assert Emits(x.(a := ExtremeInput(x, positive).a), q);
    var p := Cell(x.nc, l, 0);
    assert !(0 <= SymFromQ(q[p], EncoderBase(size, QMax(x.bits))) < size);
  }

  // Every matrix the quantiser may emit can be coded if and only if the encoder's alphabet covers the
  // layers. With an empty list of bits it does so only when it is the whole of int8.
  lemma AlwaysCodableIff(x: Input, cfg: HuffmanConfig)
    requires Shaped(x) && GoodBits(x) && EachAtLeastOne(x.bits) && x.nc > 0
    ensures AlwaysCodable(x, cfg) <==> Covers(x, cfg)
  {
    hide Emits, QMax, QFromBits;
    var size := AlphabetSize(cfg, QMax(x.bits));
    if Covers(x, cfg) {
      forall a: seq<real>, q: seq<int> | Emits(x.(a := a), q)
        ensures Codable(q, EncoderBase(size, QMax(x.bits)), size)
      {
        CoversSame(x, x.(a := a), cfg);
        QuantisedIsCodable(x.(a := a), q, cfg);
      }
    } else if x.bits == [] {
      Uncovered(x, cfg, 0, false);
    } else {
      var l :| 0 <= l < x.m && QMax(x.bits) + TopCode(x, l) >= size;
      Uncovered(x, cfg, l, true);
    }
  }

  lemma CoversSame(x: Input, x': Input, cfg: HuffmanConfig)
    requires EachAtLeastOne(x.bits) && Covers(x, cfg) && x' == x.(a := x'.a)
    ensures Covers(x', cfg)
  {
    forall l | 0 <= l < x.m
      ensures TopCode(x', l) == TopCode(x, l)
    {
    }
  }

  // With no more entries than layers the condition is on two numbers: the alphabet's size and the
  // largest code of the list.
  lemma CoversIff(x: Input, cfg: HuffmanConfig)
    requires EachAtLeastOne(x.bits) && |x.bits| <= x.m
    ensures var size := AlphabetSize(cfg, QMax(x.bits));
      Covers(x, cfg) <==> size == 256 || (x.bits != [] && 2 * QMax(x.bits) + 1 <= size)
  {
    hide QFromBits, ExpandBitsPerLayer;
    if x.bits != [] {
      var k := LargestEntry(x.bits);
      assert TopCode(x, k) == QMax(x.bits);
      forall l | 0 <= l < x.m
        ensures TopCode(x, l) <= QMax(x.bits)
      {
        QMaxBounds(x.bits, Min(l, |x.bits| - 1));
      }
    }
  }

  lemma {:induction false} LargestEntry(bits: seq<int>) returns (k: nat)
    requires bits != [] && EachAtLeastOne(bits)
    ensures k < |bits| && QFromBits(bits[k]) == QMax(bits)
  {
    var n := |bits| - 1;
    if QMax(bits[..n]) <= QFromBits(bits[n]) || n == 0 {
      k := n;
    } else {
      k := LargestEntry(bits[..n]);
    }
  }
}
