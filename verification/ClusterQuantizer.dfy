// Quantising a whole cluster, layer by layer and group by group, and what the coder may assume
// of the result.
module ClusterQuantizer {
  import opened Arith
  import opened ClusterCodec
  import opened ClusterCodecRun
  import opened Quantizer

  // ---- Bits per layer ----

  function Repeated(n: nat, x: int): (r: seq<int>)
    ensures |r| == n && forall k | 0 <= k < n :: r[k] == x
  {
    seq(n, _ => x)
  }

  function ExpandBitsPerLayer(m: nat, bits: seq<int>): (r: seq<int>)
    ensures |r| == m
  {
    if m == 0 then []
    else if bits == [] then Repeated(m, 7)
    else if |bits| == m then bits
    else if |bits| == 1 then Repeated(m, bits[0])
    else if |bits| == 2 then Repeated(m, bits[1])[0 := bits[0]]
    else if |bits| < m then bits + Repeated(m - |bits|, bits[|bits| - 1])
    else bits[..m]
  }

  // All cases say the same: layer l takes the l-th entry, or the last one.
  lemma ExpandedAt(m: nat, bits: seq<int>, l: nat)
    requires l < m
    ensures ExpandBitsPerLayer(m, bits)[l] == if bits == [] then 7 else bits[Min(l, |bits| - 1)]
  {
  }

  lemma {:induction false} QMaxBounds(bits: seq<int>, i: nat)
    requires i < |bits| && forall k | 0 <= k < |bits| :: bits[k] >= 1
    ensures QFromBits(bits[i]) <= QMax(bits)
  {
    if i < |bits| - 1 {
      QMaxBounds(bits[..|bits| - 1], i);
    }
  }

  // ---- The cluster ----

  datatype Input = Input(m: nat, nc: nat, a: seq<real>, codes: seq<nat>, mask: seq<nat>,
                         rootNorms: seq<seq<real>>, linkageNorms: seq<seq<real>>, bits: seq<int>,
                         candidates: seq<seq<real>>, cfg: Config)

  ghost predicate Shaped(x: Input) {
    && x.m > 0 && |x.a| == x.m * x.nc && (x.codes == [] || |x.codes| == |x.a|)
    && (x.mask == [] || |x.mask| == x.nc) && |x.candidates| == x.m
  }

  function BitsAt(x: Input, l: nat): int
    requires l < x.m
  {
    ExpandBitsPerLayer(x.m, x.bits)[l]
  }

  ghost predicate GoodBits(x: Input) {
    forall l | 0 <= l < x.m :: 2 <= BitsAt(x, l) <= 8
  }

  // One group's layer is quantised as specified.
  ghost predicate LayerDone(x: Input, linkage: bool, l: nat, st: Stats, q: seq<int>)
    requires Shaped(x) && l < x.m && |q| == |x.a| && BitsAt(x, l) >= 1
  {
    var idx := Members(x.nc, x.mask, linkage);
    RowWithin(x.m, x.nc, idx, l);
    var cells := Row(x.nc, idx, l);
    if idx == [] then st == NO_STATS
    else
      LayerResult(
        Prepare(SamplesAt(x.a, cells),
                WeightsAt(x.cfg, l, x.codes, cells, if linkage then x.linkageNorms else x.rootNorms)),
        x.cfg, QFromBits(BitsAt(x, l)), x.candidates[l], st, Gathered(q, cells))
  }

  ghost predicate LayersDone(x: Input, linkage: bool, n: nat, st: seq<Stats>, q: seq<int>)
    requires Shaped(x) && GoodBits(x) && n <= x.m && |q| == |x.a| && n <= |st|
  {
    forall l | 0 <= l < n :: LayerDone(x, linkage, l, st[l], q)
  }

  lemma SameCells(x: Input, linkage: bool, l: nat, st: Stats, q: seq<int>, q': seq<int>)
    requires Shaped(x) && l < x.m && |q| == |q'| == |x.a| && BitsAt(x, l) >= 1 && LayerDone(x, linkage, l, st, q)
    requires forall p | p in Row(x.nc, Members(x.nc, x.mask, linkage), l) :: p < |q| && q'[p] == q[p]
    ensures LayerDone(x, linkage, l, st, q')
  {
    hide LayerResult, Prepare, WeightsAt, SamplesAt;
    var idx := Members(x.nc, x.mask, linkage);
    RowWithin(x.m, x.nc, idx, l);
    var cells := Row(x.nc, idx, l);
    assert forall k | 0 <= k < |cells| :: cells[k] in cells;
    assert Gathered(q, cells) == Gathered(q', cells);
  }

  lemma {:induction false} MembersApart(n: nat, mask: seq<nat>)
    ensures forall i | i in Members(n, mask, false) :: i !in Members(n, mask, true)
    ensures forall linkage, i | i in Members(n, mask, linkage) :: i < n
  {
    if n > 0 {
      MembersApart(n - 1, mask);
    }
  }

  lemma RowRange(nc: nat, idx: seq<nat>, l: nat)
    requires Indices(idx, nc)
    ensures forall p | p in Row(nc, idx, l) :: l * nc <= p < l * nc + nc && p - l * nc in idx
  {
    forall p | p in Row(nc, idx, l)
      ensures l * nc <= p < l * nc + nc && p - l * nc in idx
    {
      var k :| 0 <= k < |idx| && Row(nc, idx, l)[k] == p;
      assert p == Cell(nc, l, idx[k]);
    }
  }

  lemma EarlierRow(nc: nat, l: nat, n: nat)
    requires l < n
    ensures l * nc + nc <= n * nc
  {
    assert (n - l - 1) * nc >= 0;
    assert n * nc == (n - l - 1) * nc + l * nc + nc;
  }

  datatype Outcome = Quantised(root: seq<Stats>, linkage: seq<Stats>) | SizeMismatch | BadBits

  // Fails on a layer of fewer than 2 or more than 8 bits; otherwise every layer of both groups is
  // quantised with the statistics of its best candidate.
  method QuantizeClusterCoeffsSplitRootLinkage(x: Input, qOut: array<int>) returns (r: Outcome)
    requires |x.candidates| == x.m
    modifies qOut
    ensures r.SizeMismatch? <==> !(Shaped(x) && qOut.Length == |x.a|)
    ensures r.BadBits? <==> Shaped(x) && qOut.Length == |x.a| && !GoodBits(x)
    ensures r.Quantised? ==>
      && |r.root| == |r.linkage| == x.m
      && LayersDone(x, false, x.m, r.root, qOut[..]) && LayersDone(x, true, x.m, r.linkage, qOut[..])
  {
    hide LayersDone, LayerDone, Members, ExpandBitsPerLayer;
    if x.m <= 0 || |x.a| != x.m * x.nc || (x.codes != [] && |x.codes| != x.m * x.nc)
       || (x.mask != [] && |x.mask| != x.nc) || qOut.Length != x.m * x.nc {
      return SizeMismatch;
    }
    var rootIdx, linkageIdx := SplitRootLinkage(x.nc, x.mask);
    for i := 0 to qOut.Length
    {
      qOut[i] := 0;
    }
    var root, linkage: seq<Stats> := [], [];
    NothingDone(x, qOut[..]);
    for l := 0 to x.m
      invariant |root| == |linkage| == l && forall j | 0 <= j < l :: 2 <= BitsAt(x, j) <= 8
      invariant SomeDone(x, false, l, root, qOut[..]) && SomeDone(x, true, l, linkage, qOut[..])
    {
      var bits := BitsAt(x, l);
      if bits < 2 || bits > 8 {
        return BadBits;
      }
      root, linkage := QuantizeLayer(x, l, rootIdx, linkageIdx, root, linkage, qOut);
    }
    AllDone(x, root, linkage, qOut[..]);
    r := Quantised(root, linkage);
  }

  // As LayersDone, while only the first n layers are known to have good bits.
  ghost predicate SomeDone(x: Input, linkage: bool, n: nat, st: seq<Stats>, q: seq<int>) {
    && Shaped(x) && n <= x.m && |q| == |x.a| && n <= |st|
    && forall l | 0 <= l < n :: BitsAt(x, l) >= 1 && LayerDone(x, linkage, l, st[l], q)
  }

  lemma NothingDone(x: Input, q: seq<int>)
    requires Shaped(x) && |q| == |x.a|
    ensures SomeDone(x, false, 0, [], q) && SomeDone(x, true, 0, [], q)
  {
  }

  lemma AllDone(x: Input, root: seq<Stats>, linkage: seq<Stats>, q: seq<int>)
    requires SomeDone(x, false, x.m, root, q) && SomeDone(x, true, x.m, linkage, q)
    requires forall j | 0 <= j < x.m :: 2 <= BitsAt(x, j) <= 8
    ensures GoodBits(x) && LayersDone(x, false, x.m, root, q) && LayersDone(x, true, x.m, linkage, q)
  {
  }

  lemma OneMoreDone(x: Input, linkage: bool, l: nat, st: seq<Stats>, s: Stats, q: seq<int>, q': seq<int>)
    requires SomeDone(x, linkage, l, st, q) && |st| == l < x.m && |q'| == |x.a| && BitsAt(x, l) >= 1
    requires forall p | 0 <= p < |q| && p < l * x.nc :: q'[p] == q[p]
    requires LayerDone(x, linkage, l, s, q')
    ensures SomeDone(x, linkage, l + 1, st + [s], q')
  {
    hide LayerDone;
    forall j | 0 <= j < l
      ensures LayerDone(x, linkage, j, st[j], q')
    {
      RowRange(x.nc, Members(x.nc, x.mask, linkage), j);
      EarlierRow(x.nc, j, l);
      EarlierRow(x.nc, j, x.m);
      SameCells(x, linkage, j, st[j], q, q');
    }
  }

  // What the per-layer method ensures is what LayerDone asks.
  lemma DoneNow(x: Input, linkage: bool, l: nat, st: Stats, q: seq<int>)
    requires Shaped(x) && l < x.m && |q| == |x.a| && BitsAt(x, l) >= 1
    requires var idx := Members(x.nc, x.mask, linkage); var cells := Row(x.nc, idx, l);
      && Within(cells, |x.a|)
      && (idx == [] ==> st == NO_STATS)
      && (idx != [] ==>
            LayerResult(
              Prepare(SamplesAt(x.a, cells),
                      WeightsAt(x.cfg, l, x.codes, cells, if linkage then x.linkageNorms else x.rootNorms)),
              x.cfg, QFromBits(BitsAt(x, l)), x.candidates[l], st, Gathered(q, cells)))
    ensures LayerDone(x, linkage, l, st, q)
  {
    hide LayerResult, Prepare, WeightsAt, SamplesAt, Members, ExpandBitsPerLayer;
  }

  // One group's turn: its row of layer l is written, nothing else.
  method QuantizeGroup(x: Input, linkage: bool, l: nat, idx: seq<nat>, qOut: array<int>) returns (st: Stats)
    requires Shaped(x) && l < x.m && BitsAt(x, l) >= 1 && qOut.Length == |x.a|
    requires idx == Members(x.nc, x.mask, linkage)
    modifies qOut
    ensures LayerDone(x, linkage, l, st, qOut[..])
    ensures forall p | 0 <= p < qOut.Length && p !in Row(x.nc, idx, l) :: qOut[p] == old(qOut[p])
  {
    hide Members, ExpandBitsPerLayer, LayerResult, LayerDone;
    RowWithin(x.m, x.nc, idx, l);
    st := QuantizeOneGroupOneLayer(l, BitsAt(x, l), x.nc, x.a, x.codes, idx,
                                   if linkage then x.linkageNorms else x.rootNorms, x.candidates[l], x.cfg, qOut);
    DoneNow(x, linkage, l, st, qOut[..]);
  }

  lemma RowsApart(x: Input, l: nat)
    ensures forall linkage, p | p in Row(x.nc, Members(x.nc, x.mask, linkage), l) :: p >= l * x.nc
    ensures forall p | p in Row(x.nc, Members(x.nc, x.mask, false), l) ::
      p !in Row(x.nc, Members(x.nc, x.mask, true), l)
  {
    hide Members, Row;
    RowRange(x.nc, Members(x.nc, x.mask, false), l);
    RowRange(x.nc, Members(x.nc, x.mask, true), l);
    MembersApart(x.nc, x.mask);
  }

  method QuantizeLayer(x: Input, l: nat, rootIdx: seq<nat>, linkageIdx: seq<nat>, root: seq<Stats>, linkage: seq<Stats>,
                       qOut: array<int>) returns (root': seq<Stats>, linkage': seq<Stats>)
    requires Shaped(x) && l < x.m && BitsAt(x, l) >= 1 && qOut.Length == |x.a| && |root| == |linkage| == l
    requires rootIdx == Members(x.nc, x.mask, false) && linkageIdx == Members(x.nc, x.mask, true)
    requires SomeDone(x, false, l, root, qOut[..]) && SomeDone(x, true, l, linkage, qOut[..])
    modifies qOut
    ensures |root'| == |linkage'| == l + 1
    ensures SomeDone(x, false, l + 1, root', qOut[..]) && SomeDone(x, true, l + 1, linkage', qOut[..])
  {
    hide SomeDone, Members, ExpandBitsPerLayer, LayerDone, Row;
    ghost var before := qOut[..];
    RowsApart(x, l);
    RowWithin(x.m, x.nc, rootIdx, l);
    RowMembers(Row(x.nc, rootIdx, l), |x.a|);
    var st := QuantizeGroup(x, false, l, rootIdx, qOut);
    ghost var mid := qOut[..];
    var st' := QuantizeGroup(x, true, l, linkageIdx, qOut);
    SameCells(x, false, l, st, mid, qOut[..]);
    OneMoreDone(x, false, l, root, st, before, qOut[..]);
    OneMoreDone(x, true, l, linkage, st', before, qOut[..]);
    root', linkage' := root + [st], linkage + [st'];
  }

  lemma RowMembers(cells: seq<nat>, n: nat)
    requires Within(cells, n)
    ensures forall p | p in cells :: p < n
  {
  }

  // ---- What the coder may assume ----

  lemma GroupCellBound(x: Input, linkage: bool, l: nat, k: nat, st: Stats, q: seq<int>)
    requires Shaped(x) && l < x.m && |q| == |x.a| && BitsAt(x, l) >= 1 && LayerDone(x, linkage, l, st, q)
    requires k < |Members(x.nc, x.mask, linkage)|
    ensures var p, hi := Cell(x.nc, l, Members(x.nc, x.mask, linkage)[k]), QFromBits(BitsAt(x, l));
      p < |q| && q[p] <= hi && -q[p] <= hi
  {
    hide Prepare, WeightsAt, SamplesAt, Members, ExpandBitsPerLayer, LayerResult;
    var idx := Members(x.nc, x.mask, linkage);
    RowWithin(x.m, x.nc, idx, l);
    var cells := Row(x.nc, idx, l);
    var s := Prepare(SamplesAt(x.a, cells),
                     WeightsAt(x.cfg, l, x.codes, cells, if linkage then x.linkageNorms else x.rootNorms));
    CodesInRange(s, x.cfg, QFromBits(BitsAt(x, l)), x.candidates[l], st, Gathered(q, cells));
    assert Gathered(q, cells)[k] == q[cells[k]];
  }

  lemma {:induction false} RowOf(m: nat, nc: nat, p: nat) returns (l: nat, i: nat)
    requires p < m * nc
    ensures l < m && i < nc && p == Cell(nc, l, i)
  {
    assert m * nc == (m - 1) * nc + nc;
    if p < (m - 1) * nc {
      l, i := RowOf(m - 1, nc, p);
    } else {
      l, i := m - 1, p - (m - 1) * nc;
    }
  }

  // The matrices the quantiser may return for an input.
  ghost predicate Emits(x: Input, q: seq<int>) {
    && Shaped(x) && GoodBits(x) && |q| == |x.a|
    && exists root: seq<Stats>, linkage: seq<Stats> ::
         |root| == |linkage| == x.m && LayersDone(x, false, x.m, root, q) && LayersDone(x, true, x.m, linkage, q)
  }

  // Every emitted code is within its layer's range.
  lemma EmittedBound(x: Input, q: seq<int>, p: nat) returns (l: nat)
    requires Emits(x, q) && p < |q|
    ensures l < x.m && BitsAt(x, l) >= 1
    ensures q[p] <= QFromBits(BitsAt(x, l)) && -q[p] <= QFromBits(BitsAt(x, l))
  {
    hide LayerDone, Members, ExpandBitsPerLayer, QFromBits;
    var root: seq<Stats>, linkage: seq<Stats> :|
      |root| == |linkage| == x.m && LayersDone(x, false, x.m, root, q) && LayersDone(x, true, x.m, linkage, q);
    var i;
    l, i := RowOf(x.m, x.nc, p);
    MembersCover(x.nc, x.mask, i);
    var isLinkage := i !in Members(x.nc, x.mask, false);
    var idx := Members(x.nc, x.mask, isLinkage);
    var k :| 0 <= k < |idx| && idx[k] == i;
    GroupCellBound(x, isLinkage, l, k, if isLinkage then linkage[l] else root[l], q);
  }

  ghost predicate EachAtLeastOne(bits: seq<int>) {
    forall k | 0 <= k < |bits| :: bits[k] >= 1
  }

  // The largest code of a layer.
  function TopCode(x: Input, l: nat): (hi: nat)
    requires l < x.m && EachAtLeastOne(x.bits)
    ensures BitsAt(x, l) >= 1 && hi == QFromBits(BitsAt(x, l))
  {
    ExpandedAt(x.m, x.bits, l);
    QFromBits(if x.bits == [] then 7 else x.bits[Min(l, |x.bits| - 1)])
  }

  // The encoder's alphabet holds every code of every layer: it is the whole of int8, or the list of
  // bits is not empty and each layer's largest code, above the base, is still in the alphabet.
  ghost predicate Covers(x: Input, cfg: HuffmanConfig)
    requires EachAtLeastOne(x.bits)
  {
    var size := AlphabetSize(cfg, QMax(x.bits));
    size == 256 ||
    (x.bits != [] && forall l | 0 <= l < x.m :: QMax(x.bits) + TopCode(x, l) < size)
  }

  // The encoder derives its alphabet from the same list of bits; when it covers the layers, every
  // code the quantiser emits has a symbol.
  lemma QuantisedIsCodable(x: Input, q: seq<int>, cfg: HuffmanConfig)
    requires Emits(x, q) && EachAtLeastOne(x.bits) && Covers(x, cfg)
    ensures var size := AlphabetSize(cfg, QMax(x.bits)); Codable(q, EncoderBase(size, QMax(x.bits)), size)
  {
    hide Emits, ExpandBitsPerLayer, QMax, QFromBits;
    forall p | 0 <= p < |q|
      ensures var size := AlphabetSize(cfg, QMax(x.bits)); 0 <= SymFromQ(q[p], EncoderBase(size, QMax(x.bits))) < size
    {
      var l := EmittedBound(x, q, p);
      assert TopCode(x, l) == QFromBits(BitsAt(x, l));
      ExpandedAt(x.m, x.bits, l);
      EmitsGood(x, q);
      CodeByte(x, l);
      if x.bits != [] {
        QMaxBounds(x.bits, Min(l, |x.bits| - 1));
      }
    }
  }

  lemma EmitsGood(x: Input, q: seq<int>)
    requires Emits(x, q)
    ensures Shaped(x) && GoodBits(x) && |q| == |x.a|
  {
  }

  lemma CodeByte(x: Input, l: nat)
    requires GoodBits(x) && l < x.m
    ensures 1 <= QFromBits(BitsAt(x, l)) <= 127
  {
    hide ExpandBitsPerLayer;
    assert Pow2(7) == 128 && Pow2(1) == 2;
    Pow2Mono(1, BitsAt(x, l) - 1);
    Pow2Mono(BitsAt(x, l) - 1, 7);
  }

  lemma EmittedInt8(x: Input, q: seq<int>)
    requires Emits(x, q)
    ensures Int8s(q)
  {
    hide Emits, ExpandBitsPerLayer, QFromBits;
    forall p | 0 <= p < |q|
      ensures -128 <= q[p] <= 127
    {
      var l := EmittedBound(x, q, p);
      EmitsGood(x, q);
      CodeByte(x, l);
    }
  }

  function ScalesOf(st: seq<Stats>): (r: seq<real>)
    ensures |r| == |st| && forall l | 0 <= l < |r| :: r[l] == st[l].scale
  {
    seq(|st|, l requires 0 <= l < |st| => st[l].scale)
  }

  // Quantises and codes a cluster; every code it emits has a symbol, so the coding never reads
  // outside its table, and the streams carry exactly the quantised matrix.
  method QuantizeAndCompressClusterCoeffs(x: Input, clusterId: nat, cfg: HuffmanConfig, qTmp: array<int>)
    returns (r: Result)
    requires |x.candidates| == x.m
    requires Shaped(x) && qTmp.Length == |x.a| && GoodBits(x) ==>
      |x.a| < TWO_32 && Configured(x.bits, cfg) && Covers(x, cfg)
    modifies qTmp
    ensures r == Err(QuantiseError) <==> !(Shaped(x) && qTmp.Length == |x.a| && GoodBits(x))
    ensures r != Err(QuantiseError) ==> Emits(x, qTmp[..])
    ensures r.Ok? ==> AllReady(r.comp.root.models) && AllReady(r.comp.linkage.models)
    ensures r.Ok? ==>
      var size, base, g := SizeOf(x.bits, cfg), BaseOf(x.bits, cfg), cfg.granularity;
      && GroupCarries(Lens(r.comp.root.models), Streams(r.comp.root.payloads), qTmp[..], x.m, x.nc,
                      Members(x.nc, x.mask, false), base, size, g)
      && GroupCarries(Lens(r.comp.linkage.models), Streams(r.comp.linkage.payloads), qTmp[..], x.m, x.nc,
                      Members(x.nc, x.mask, true), base, size, g)
    ensures
      && Shaped(x) && qTmp.Length == |x.a| && GoodBits(x)
      && Sendable(x.m, x.nc, x.mask, BaseOf(x.bits, cfg), SizeOf(x.bits, cfg), cfg.granularity)
      ==> r.Ok?
  {
    hide GroupCarries, LayersDone, Members, ExpandBitsPerLayer, ClusterFits, Codable, QMax, GoodBits, Lens, Covers;
    var q := QuantizeClusterCoeffsSplitRootLinkage(x, qTmp);
    if !q.Quantised? {
      return Err(QuantiseError);
    }
    assert Emits(x, qTmp[..]);
    QuantisedIsCodable(x, qTmp[..], cfg);
    EmittedInt8(x, qTmp[..]);
    ghost var size, base := SizeOf(x.bits, cfg), BaseOf(x.bits, cfg);
    if Sendable(x.m, x.nc, x.mask, base, size, cfg.granularity) {
      ClusterIsWritable(qTmp[..], x.m, x.nc, x.mask, base, size, cfg.granularity);
    }
    r := CompressClusterCoeffsFromQ(clusterId, x.m, x.nc, qTmp[..], x.mask, ScalesOf(q.root), ScalesOf(q.linkage),
                                    x.bits, cfg);
  }
}
