// The codec as the source runs it: counters, bit streams and the output matrix updated in loops.
module ClusterCodecRun {
  import opened Arith
  import opened BitIo
  import opened HuffmanForest
  import opened CanonicalCode
  import opened CanonicalDecode
  import opened CanonicalModel
  import opened ClusterCodec

  method SplitRootLinkage(nc: nat, mask: seq<nat>) returns (root: seq<nat>, linkage: seq<nat>)
    requires mask != [] ==> |mask| >= nc
    ensures root == Members(nc, mask, false) && linkage == Members(nc, mask, true)
    ensures forall i: nat | i < nc && mask == [] :: i in root
    ensures forall i: nat | i < nc && mask != [] :: (i in root <==> mask[i] == 0) && (i in linkage <==> mask[i] != 0)
    ensures forall j, k | 0 <= j < k < |root| :: root[j] < root[k]
    ensures forall j, k | 0 <= j < k < |linkage| :: linkage[j] < linkage[k]
    ensures |root| + |linkage| == nc
  {
    root, linkage := [], [];
    for i := 0 to nc
      invariant root == Members(i, mask, false) && linkage == Members(i, mask, true)
      invariant |root| + |linkage| == i
    {
      if mask != [] && mask[i] != 0 {
        linkage := linkage + [i];
      } else {
        root := root + [i];
      }
    }
    MembersMean(nc, mask, false);
    MembersMean(nc, mask, true);
  }

  lemma {:induction false} MembersMean(nc: nat, mask: seq<nat>, linkage: bool)
    requires mask != [] ==> |mask| >= nc
    ensures forall i: nat | i < nc && mask == [] :: i in Members(nc, mask, linkage) <==> !linkage
    ensures forall i: nat | i < nc && mask != [] :: i in Members(nc, mask, linkage) <==> ((mask[i] != 0) <==> linkage)
    ensures forall j, k | 0 <= j < k < |Members(nc, mask, linkage)| ::
      Members(nc, mask, linkage)[j] < Members(nc, mask, linkage)[k]
  {
    if nc > 0 {
      MembersMean(nc - 1, mask, linkage);
    }
  }

  // Counts one layer's symbols on top of a table that already counts the list before.
  method CountRow(nc: nat, q: seq<int>, idx: seq<nat>, l: nat, base: nat, freq: array<nat>, ghost before: seq<nat>)
    requires Within(Row(nc, idx, l), |q|) && Codable(q, base, freq.Length)
    requires freq[..] == Histogram(before, freq.Length)
    modifies freq
    ensures freq[..] == Histogram(before + SymsAt(q, Row(nc, idx, l), base), freq.Length)
  {
    ghost var syms := SymsAt(q, Row(nc, idx, l), base);
    assert before + syms[..0] == before;
    for k := 0 to |idx|
      invariant freq[..] == Histogram(before + syms[..k], freq.Length)
    {
      assert Row(nc, idx, l)[k] == Cell(nc, l, idx[k]);
      var sym := SymFromQ(q[l * nc + idx[k]], base);
      HistogramStep(before + syms[..k], sym, freq.Length);
      assert before + syms[..k + 1] == before + syms[..k] + [sym];
      freq[sym] := Low32(freq[sym] + 1);
    }
    assert syms[..|idx|] == syms;
  }

  method BuildFreqOneLayer(nc: nat, q: seq<int>, idx: seq<nat>, l: nat, base: nat, size: nat) returns (freq: array<nat>)
    requires Within(Row(nc, idx, l), |q|) && Codable(q, base, size)
    ensures fresh(freq) && freq[..] == Histogram(SymsAt(q, Row(nc, idx, l), base), size)
  {
    freq := new nat[size](_ => 0);
    assert freq[..] == Histogram([], size);
    CountRow(nc, q, idx, l, base, freq, []);
    assert [] + SymsAt(q, Row(nc, idx, l), base) == SymsAt(q, Row(nc, idx, l), base);
  }

  method BuildFreqAllLayers(m: nat, nc: nat, q: seq<int>, idx: seq<nat>, base: nat, size: nat)
    returns (freq: array<nat>)
    requires |q| == m * nc && Indices(idx, nc) && Codable(q, base, size)
    ensures fresh(freq) && freq[..] == Histogram(SymsAt(q, Cells(nc, idx, m), base), size)
  {
    freq := new nat[size](_ => 0);
    assert freq[..] == Histogram([], size);
    RowsWithin(m, nc, idx);
    for l := 0 to m
      invariant freq.Length == size && freq[..] == Histogram(SymsAt(q, Cells(nc, idx, l), base), size)
    {
      SymsConcat(q, Cells(nc, idx, l), Row(nc, idx, l), base);
      CountRow(nc, q, idx, l, base, freq, SymsAt(q, Cells(nc, idx, l), base));
    }
  }

  lemma {:induction false} EncodeConcat(len: seq<nat>, a: seq<nat>, b: seq<nat>)
    requires forall k | 0 <= k < |a + b| :: (a + b)[k] < |len|
    ensures (forall k | 0 <= k < |a| :: a[k] < |len|) && (forall k | 0 <= k < |b| :: b[k] < |len|)
    ensures Encode(len, a + b) == Encode(len, a) + Encode(len, b)
  {
    hide Codeword, Encode;
    assert forall k | 0 <= k < |a| :: a[k] == (a + b)[k];
    assert forall k | 0 <= k < |b| :: b[k] == (a + b)[|a| + k];
    if b == [] {
      assert a + b == a;
      EncodeNil(len);
    } else {
      var n := |b| - 1;
      assert (a + b)[..|a| + n] == a + b[..n];
      EncodeConcat(len, a, b[..n]);
      EncodeLast(len, a + b);
      EncodeLast(len, b);
    }
  }

  lemma EncodeLast(len: seq<nat>, syms: seq<nat>)
    requires syms != [] && forall k | 0 <= k < |syms| :: syms[k] < |len|
    ensures var n := |syms| - 1; Encode(len, syms) == Encode(len, syms[..n]) + Codeword(len, syms[n])
  {
    hide Codeword;
  }

  lemma EncodeNil(len: seq<nat>)
    ensures Encode(len, []) == []
  {
  }

  lemma LayerSyms(q: seq<int>, nc: nat, idx: seq<nat>, l: nat, base: nat)
    ensures SymsAt(q, Cells(nc, idx, l + 1), base)
        == SymsAt(q, Cells(nc, idx, l), base) + SymsAt(q, Row(nc, idx, l), base)
    ensures SymsAt(q, Cells(nc, idx, 0), base) == []
  {
    SymsConcat(q, Cells(nc, idx, l), Row(nc, idx, l), base);
  }

  lemma SymsInRange(q: seq<int>, cells: seq<nat>, base: nat, size: nat)
    requires Within(cells, |q|) && Codable(q, base, size)
    ensures SymsBelow(SymsAt(q, cells, base), size)
  {
  }

  // Every symbol of the list has a code that WriteBits takes.
  ghost predicate Writable(len: seq<nat>, syms: seq<nat>) {
    forall k | 0 <= k < |syms| :: syms[k] < |len| && 0 < len[syms[k]] <= 32
  }

  // What writing a list reports: it stops at the first symbol that cannot be written.
  ghost predicate WriteReport(len: seq<nat>, syms: seq<nat>, w: WriteResult) {
    && (w == Written <==> Writable(len, syms))
    && (w == ZeroLength ==> exists k :: 0 <= k < |syms| && syms[k] < |len| && len[syms[k]] == 0)
  }

  // Appends one layer's codewords.
  method EncodeRow(nc: nat, q: seq<int>, idx: seq<nat>, l: nat, base: nat, model: HuffmanCanonicalModel, bw: BitWriter)
    returns (w: WriteResult)
    requires model.Ready() && bw.Valid() && Within(Row(nc, idx, l), |q|) && Codable(q, base, model.S)
    modifies bw
    ensures bw.Valid() && WriteReport(model.len, SymsAt(q, Row(nc, idx, l), base), w)
    ensures w == Written ==> bw.bits == old(bw.bits) + Encode(model.len, SymsAt(q, Row(nc, idx, l), base))
  {
    hide Encode, Codeword, TablesOf, SymsAt, Codable, WriteReport;
    ghost var syms := SymsAt(q, Row(nc, idx, l), base);
    ghost var start := bw.bits;
    SymsInRange(q, Row(nc, idx, l), base, model.S);
    NothingWritten(model.len);
    EncodeNil(model.len);
    for k := 0 to |idx|
      invariant model.Ready() && bw.Valid() && bw.bits == start + Encode(model.len, syms[..k])
      invariant WriteReport(model.len, syms[..k], Written)
    {
      RowSym(q, nc, idx, l, base, model.S, k);
      EncodeSplit(model.len, syms, k);
      w := model.EncodeSymbol(bw, SymFromQ(q[l * nc + idx[k]], base));
      ReportOne(model.len, syms, k, w);
      if w != Written {
        return;
      }
    }
    assert syms[..|idx|] == syms;
    w := Written;
  }

  // The k-th symbol of a row.
  lemma RowSym(q: seq<int>, nc: nat, idx: seq<nat>, l: nat, base: nat, size: nat, k: nat)
    requires Within(Row(nc, idx, l), |q|) && Codable(q, base, size) && k < |idx|
    ensures var c := l * nc + idx[k];
      c < |q| && SymsAt(q, Row(nc, idx, l), base)[k] == SymFromQ(q[c], base) < size
  {
    assert Row(nc, idx, l)[k] == Cell(nc, l, idx[k]);
  }

  // The report after the k-th symbol: still nothing amiss, or the failure of the whole list.
  lemma ReportOne(len: seq<nat>, syms: seq<nat>, k: nat, w: WriteResult)
    requires k < |syms| && syms[k] < |len| && WriteReport(len, syms[..k], Written)
    requires w == if len[syms[k]] == 0 then ZeroLength else if len[syms[k]] > 32 then BadBitCount else Written
    ensures WriteReport(len, if w == Written then syms[..k + 1] else syms, w)
  {
    if w == Written {
      assert syms[..k + 1] == syms[..k] + [syms[k]];
      ReportConcat(len, syms[..k], [syms[k]], w);
    }
  }

  method EncodeOneLayer(nc: nat, q: seq<int>, idx: seq<nat>, l: nat, base: nat, model: HuffmanCanonicalModel)
    returns (payload: seq<nat>, w: WriteResult)
    requires model.Ready() && Within(Row(nc, idx, l), |q|) && Codable(q, base, model.S)
    ensures WriteReport(model.len, SymsAt(q, Row(nc, idx, l), base), w)
    ensures w == Written ==> Encode(model.len, SymsAt(q, Row(nc, idx, l), base)) <= BitsOf(payload) && Bytes(payload)
  {
    payload := [];
    var bw := new BitWriter();
    bw.Reset();
    w := EncodeRow(nc, q, idx, l, base, model, bw);
    if w == Written {
      payload := bw.Finish();
    }
  }

  method EncodeAllLayers(m: nat, nc: nat, q: seq<int>, idx: seq<nat>, base: nat, model: HuffmanCanonicalModel)
    returns (payload: seq<nat>, w: WriteResult)
    requires model.Ready() && |q| == m * nc && Indices(idx, nc) && Codable(q, base, model.S)
    ensures SymsBelow(SymsAt(q, Cells(nc, idx, m), base), |model.len|)
    ensures WriteReport(model.len, SymsAt(q, Cells(nc, idx, m), base), w)
    ensures w == Written ==> Encode(model.len, SymsAt(q, Cells(nc, idx, m), base)) <= BitsOf(payload) && Bytes(payload)
  {
    hide Codeword, Encode, TablesOf, SymsAt, Row, Cells, Codable, WriteReport;
    payload, w := [], Written;
    var bw := new BitWriter();
    bw.Reset();
    RowsWithin(m, nc, idx);
    CellsWithin(m, nc, idx, m);
    SymsInRange(q, Cells(nc, idx, m), base, model.S);
    EncodeNil(model.len);
    LayerSyms(q, nc, idx, 0, base);
    NothingWritten(model.len);
    for l := 0 to m
      invariant model.Ready() && bw.Valid() && w == Written
      invariant SymsBelow(SymsAt(q, Cells(nc, idx, l), base), |model.len|)
      invariant bw.bits == Encode(model.len, SymsAt(q, Cells(nc, idx, l), base))
      invariant WriteReport(model.len, SymsAt(q, Cells(nc, idx, l), base), Written)
    {
      LayerSyms(q, nc, idx, l, base);
      CellsWithin(m, nc, idx, l + 1);
      SymsInRange(q, Cells(nc, idx, l + 1), base, model.S);
      EncodeConcat(model.len, SymsAt(q, Cells(nc, idx, l), base), SymsAt(q, Row(nc, idx, l), base));
      w := EncodeRow(nc, q, idx, l, base, model, bw);
      ReportConcat(model.len, SymsAt(q, Cells(nc, idx, l), base), SymsAt(q, Row(nc, idx, l), base), w);
      if w != Written {
        ReportStops(nc, q, idx, l + 1, m, base, model.len, w);
        return;
      }
    }
    payload := bw.Finish();
  }

  lemma NothingWritten(len: seq<nat>)
    ensures WriteReport(len, [], Written)
  {
  }

  lemma ReportConcat(len: seq<nat>, a: seq<nat>, b: seq<nat>, w: WriteResult)
    requires WriteReport(len, a, Written) && WriteReport(len, b, w)
    ensures WriteReport(len, a + b, w)
  {
    var r := a + b;
    assert forall k | 0 <= k < |b| :: r[|a| + k] == b[k];
    assert forall k | 0 <= k < |a| :: r[k] == a[k];
  }

  // A failure in the first layers is a failure of the whole.
  lemma {:induction false} ReportStops(nc: nat, q: seq<int>, idx: seq<nat>, l: nat, m: nat, base: nat,
                                       len: seq<nat>, w: WriteResult)
    requires l <= m && w != Written && WriteReport(len, SymsAt(q, Cells(nc, idx, l), base), w)
    ensures WriteReport(len, SymsAt(q, Cells(nc, idx, m), base), w)
    decreases m - l
  {
    if l < m {
      LayerSyms(q, nc, idx, l, base);
      ReportGrows(len, SymsAt(q, Cells(nc, idx, l), base), SymsAt(q, Row(nc, idx, l), base), w);
      ReportStops(nc, q, idx, l + 1, m, base, len, w);
    }
  }

  lemma ReportGrows(len: seq<nat>, a: seq<nat>, b: seq<nat>, w: WriteResult)
    requires w != Written && WriteReport(len, a, w)
    ensures WriteReport(len, a + b, w)
  {
    var r := a + b;
    assert forall k | 0 <= k < |a| :: r[k] == a[k];
  }

  ghost predicate SymsBelow(syms: seq<nat>, size: nat) {
    forall k | 0 <= k < |syms| :: syms[k] < size
  }

  ghost function Lens(models: seq<HuffmanCanonicalModel>): (r: seq<seq<nat>>)
    reads models
    ensures |r| == |models| && forall i | 0 <= i < |models| :: r[i] == models[i].len
  {
    seq(|models|, i requires 0 <= i < |models| reads models => models[i].len)
  }

  ghost predicate AllReady(models: seq<HuffmanCanonicalModel>)
    reads models
  {
    forall i | 0 <= i < |models| :: models[i].Ready()
  }

  lemma RowListed(m: nat, nc: nat, q: seq<int>, idx: seq<nat>, l: nat, base: nat, size: nat)
    requires l < m && |q| == m * nc < TWO_32 && Indices(idx, nc) && 0 < |idx| <= nc
    requires 0 < size < TWO_16 && Codable(q, base, size)
    ensures Within(Row(nc, idx, l), |q|) && Listed(SymsAt(q, Row(nc, idx, l), base), size)
  {
    RowWithin(m, nc, idx, l);
    CellBudget(m, nc, |idx|);
  }

  lemma CellsListed(m: nat, nc: nat, q: seq<int>, idx: seq<nat>, base: nat, size: nat)
    requires m >= 1 && |q| == m * nc < TWO_32 && Indices(idx, nc) && 0 < |idx| <= nc
    requires 0 < size < TWO_16 && Codable(q, base, size)
    ensures Within(Cells(nc, idx, m), |q|) && Listed(SymsAt(q, Cells(nc, idx, m), base), size)
  {
    CellsWithin(m, nc, idx, m);
    CellBudget(m, nc, |idx|);
    assert m * |idx| >= |idx| by { CellBudget(m, |idx|, |idx|); }
  }

  // Writing a list with its own table fails exactly when some code is longer than 32 bits.
  lemma ListReport(syms: seq<nat>, size: nat, w: WriteResult)
    requires Listed(syms, size) && WriteReport(TableOf(syms, size), syms, w)
    ensures w == if MaxLen(TableOf(syms, size)) <= 32 then Written else BadBitCount
  {
    var len := TableOf(syms, size);
    ListedTable(syms, size);
    var k := LongestIsListed(syms, size);
    AllWithinMax(len);
  }

  // The model of one layer's symbols and the coded layer. The empty-model error and the
  // zero-length error cannot happen, because a coded list is never empty.
  method CodeOneLayer(m: nat, nc: nat, q: seq<int>, idx: seq<nat>, l: nat, base: nat, size: nat)
    returns (model: HuffmanCanonicalModel, payload: seq<nat>, r: BuildResult, w: WriteResult)
    requires l < m && |q| == m * nc < TWO_32 && Indices(idx, nc) && 0 < |idx| <= nc
    requires 0 < size < TWO_16 && Codable(q, base, size)
    ensures r == Built && fresh(model) && model.Ready()
    ensures w == if StreamFits(q, Row(nc, idx, l), base, size) then Written else BadBitCount
    ensures w == Written ==>
      Bytes(payload) && Carries(model.len, BitsOf(payload), SymsAt(q, Row(nc, idx, l), base), size)
  {
    hide Histogram, CodeLengths, Listed, Row, SymsAt, KraftLe, Codable, TablesOf, WriteReport;
    ghost var syms := SymsAt(q, Row(nc, idx, l), base);
    RowListed(m, nc, q, idx, l, base, size);
    ListedTable(syms, size);
    var freq := BuildFreqOneLayer(nc, q, idx, l, base, size);
    model, r := BuildHuffmanCanonicalModel(freq[..]);
    payload, w := EncodeOneLayer(nc, q, idx, l, base, model);
    ListReport(syms, size, w);
  }

  method CodeAllLayers(m: nat, nc: nat, q: seq<int>, idx: seq<nat>, base: nat, size: nat)
    returns (model: HuffmanCanonicalModel, payload: seq<nat>, r: BuildResult, w: WriteResult)
    requires m >= 1 && |q| == m * nc < TWO_32 && Indices(idx, nc) && 0 < |idx| <= nc
    requires 0 < size < TWO_16 && Codable(q, base, size)
    ensures r == Built && fresh(model) && model.Ready()
    ensures w == if StreamFits(q, Cells(nc, idx, m), base, size) then Written else BadBitCount
    ensures w == Written ==>
      Bytes(payload) && Carries(model.len, BitsOf(payload), SymsAt(q, Cells(nc, idx, m), base), size)
  {
    hide Histogram, CodeLengths, Listed, Cells, SymsAt, KraftLe, Codable, TablesOf, WriteReport;
    ghost var syms := SymsAt(q, Cells(nc, idx, m), base);
    CellsListed(m, nc, q, idx, base, size);
    ListedTable(syms, size);
    var freq := BuildFreqAllLayers(m, nc, q, idx, base, size);
    model, r := BuildHuffmanCanonicalModel(freq[..]);
    payload, w := EncodeAllLayers(m, nc, q, idx, base, model);
    ListReport(syms, size, w);
  }

  // The group's models and streams, or the error of the first stream that does not fit.
  method EncodeGroup(m: nat, nc: nat, q: seq<int>, idx: seq<nat>, base: nat, size: nat, granularity: Granularity)
    returns (g: Group, r: BuildResult, w: WriteResult)
    requires m >= 1 && |q| == m * nc < TWO_32 && Indices(idx, nc) && |idx| <= nc
    requires 0 < size < TWO_16 && Codable(q, base, size)
    ensures r == Built && AllReady(g.models) && fresh(g.models)
    ensures w == if GroupFits(q, m, nc, idx, base, size, granularity) then Written else BadBitCount
    ensures w == Written ==>
      && GroupCarries(Lens(g.models), Streams(g.payloads), q, m, nc, idx, base, size, granularity)
      && g.serialized == Lens(g.models) && (forall i | 0 <= i < |g.payloads| :: Bytes(g.payloads[i]))
      && g.numSymbols == if idx == [] then [] else if granularity == AllLayers then [m * |idx|] else seq(m, _ => |idx|)
  {
    hide Carries, SymsAt, Row, Cells, Codable, TablesOf, MaxLen, Within, StreamFits, BitsOf, Bytes;
    g, r, w := EMPTY_GROUP, Built, Written;
    if idx == [] {
      return;
    }
    if granularity == AllLayers {
      var model, payload;
      model, payload, r, w := CodeAllLayers(m, nc, q, idx, base, size);
      g := Group([model], [model.len], [payload], [m * |idx|]);
    } else {
      g, r, w := EncodePerLayer(m, nc, q, idx, base, size);
    }
  }

  // The layers coded so far.
  ghost predicate LayersCoded(lens: seq<seq<nat>>, payloads: seq<seq<nat>>, q: seq<int>, nc: nat, idx: seq<nat>,
                              base: nat, size: nat)
  {
    |lens| == |payloads| && forall l | 0 <= l < |lens| ::
      Bytes(payloads[l]) && Carries(lens[l], BitsOf(payloads[l]), SymsAt(q, Row(nc, idx, l), base), size)
  }

  lemma NoLayers(q: seq<int>, nc: nat, idx: seq<nat>, base: nat, size: nat)
    ensures LayersCoded([], [], q, nc, idx, base, size)
  {
  }

  lemma OneMoreLayer(lens: seq<seq<nat>>, payloads: seq<seq<nat>>, q: seq<int>, nc: nat, idx: seq<nat>, base: nat,
                     size: nat, len: seq<nat>, payload: seq<nat>)
    requires LayersCoded(lens, payloads, q, nc, idx, base, size) && Bytes(payload)
    requires Carries(len, BitsOf(payload), SymsAt(q, Row(nc, idx, |lens|), base), size)
    ensures LayersCoded(lens + [len], payloads + [payload], q, nc, idx, base, size)
  {
    hide Carries, Bytes, BitsOf, SymsAt, Row;
  }

  lemma LensMore(models: seq<HuffmanCanonicalModel>, model: HuffmanCanonicalModel)
    ensures Lens(models + [model]) == Lens(models) + [model.len]
  {
  }

  lemma ReadyMore(models: seq<HuffmanCanonicalModel>, model: HuffmanCanonicalModel)
    requires AllReady(models) && model.Ready()
    ensures AllReady(models + [model])
  {
  }

  lemma NoneReady()
    ensures AllReady([]) && Lens([]) == []
  {
  }

  method EncodePerLayer(m: nat, nc: nat, q: seq<int>, idx: seq<nat>, base: nat, size: nat)
    returns (g: Group, r: BuildResult, w: WriteResult)
    requires |q| == m * nc < TWO_32 && Indices(idx, nc) && 0 < |idx| <= nc
    requires 0 < size < TWO_16 && Codable(q, base, size)
    ensures r == Built && AllReady(g.models) && fresh(g.models)
    ensures w == if LayersFit(q, m, nc, idx, base, size) then Written else BadBitCount
    ensures w == Written ==>
      && |g.models| == m && g.serialized == Lens(g.models) && g.numSymbols == seq(m, _ => |idx|)
      && LayersCoded(g.serialized, g.payloads, q, nc, idx, base, size)
  {
    hide Carries, SymsAt, Row, Cells, Codable, TablesOf, MaxLen, Within, StreamFits, BitsOf, Bytes, LayersCoded,
      AllReady, HuffmanCanonicalModel.Ready, Lens, Indices;
    NoneReady();
    var models: seq<HuffmanCanonicalModel>, lens, payloads, numSymbols := [], [], [], [];
    g, r, w := EMPTY_GROUP, Built, Written;
    NoLayers(q, nc, idx, base, size);
    for l := 0 to m
      invariant |models| == |lens| == l && AllReady(models) && fresh(models) && r == Built && w == Written
      invariant g == EMPTY_GROUP && lens == Lens(models) && numSymbols == seq(l, _ => |idx|)
      invariant forall j | 0 <= j < l :: StreamFits(q, Row(nc, idx, j), base, size)
      invariant LayersCoded(lens, payloads, q, nc, idx, base, size)
    {
      var model, payload;
      model, payload, r, w := CodeOneLayer(m, nc, q, idx, l, base, size);
      if w != Written {
        return;
      }
      OneMoreLayer(lens, payloads, q, nc, idx, base, size, model.len, payload);
      LensMore(models, model);
      ReadyMore(models, model);
      models, lens := models + [model], lens + [model.len];
      payloads, numSymbols := payloads + [payload], numSymbols + [|idx|];
    }
    g := Group(models, lens, payloads, numSymbols);
  }

  method LargestCode(bitsPerLayer: seq<int>) returns (qmax: nat)
    requires forall i | 0 <= i < |bitsPerLayer| :: bitsPerLayer[i] >= 1
    ensures qmax == QMax(bitsPerLayer)
  {
    qmax := 0;
    for i := 0 to |bitsPerLayer|
      invariant qmax == QMax(bitsPerLayer[..i])
    {
      assert bitsPerLayer[..i + 1][..i] == bitsPerLayer[..i];
      qmax := Max(qmax, QFromBits(bitsPerLayer[i]));
    }
    assert bitsPerLayer[..|bitsPerLayer|] == bitsPerLayer;
  }

  ghost predicate SizesAgree(m: int, nc: int, q: seq<int>, scaleRoot: seq<real>, scaleLinkage: seq<real>) {
    m > 0 && nc >= 0 && |q| == m * nc && |scaleRoot| == |scaleLinkage| == m
  }

  // Errors on sizes come first; only then do bits, alphabet and coefficients matter.
  method CompressClusterCoeffsFromQ(clusterId: nat, m: int, nc: int, q: seq<int>, mask: seq<nat>,
                                    scaleRoot: seq<real>, scaleLinkage: seq<real>,
                                    bitsPerLayer: seq<int>, cfg: HuffmanConfig) returns (r: Result)
    requires SizesAgree(m, nc, q, scaleRoot, scaleLinkage) ==>
      && (mask != [] ==> |mask| >= nc) && |q| < TWO_32 && Configured(bitsPerLayer, cfg)
      && Codable(q, BaseOf(bitsPerLayer, cfg), SizeOf(bitsPerLayer, cfg))
    ensures r != Err(QuantiseError)
    ensures r.Err? && !r.error.WriteError? <==> !SizesAgree(m, nc, q, scaleRoot, scaleLinkage)
    ensures r.Err? && r.error.WriteError? <==>
      && SizesAgree(m, nc, q, scaleRoot, scaleLinkage)
      && !ClusterFits(q, m, nc, mask, BaseOf(bitsPerLayer, cfg), SizeOf(bitsPerLayer, cfg), cfg.granularity)
    ensures r.Ok? ==> AllReady(r.comp.root.models) && AllReady(r.comp.linkage.models)
    ensures r.Ok? ==>
      var size, base, g := SizeOf(bitsPerLayer, cfg), BaseOf(bitsPerLayer, cfg), cfg.granularity;
      && GroupCarries(Lens(r.comp.root.models), Streams(r.comp.root.payloads), q, m, nc,
                      Members(nc, mask, false), base, size, g)
      && GroupCarries(Lens(r.comp.linkage.models), Streams(r.comp.linkage.payloads), q, m, nc,
                      Members(nc, mask, true), base, size, g)
      && r.comp.clusterId == clusterId && r.comp.nInCluster == nc == r.comp.nRoot + r.comp.nLinkage
      && r.comp.nRoot == |Members(nc, mask, false)|
      && r.comp.scaleRoot == scaleRoot && r.comp.scaleLinkage == scaleLinkage
      && r.comp.root.serialized == Lens(r.comp.root.models) && r.comp.linkage.serialized == Lens(r.comp.linkage.models)
      && (g == AllLayers && nc > r.comp.nLinkage ==> r.comp.root.numSymbols == [m * r.comp.nRoot])
      && (g == PerLayer && nc > r.comp.nLinkage ==> r.comp.root.numSymbols == seq(m, _ => r.comp.nRoot))
      && (g == AllLayers && r.comp.nLinkage > 0 ==> r.comp.linkage.numSymbols == [m * r.comp.nLinkage])
      && (g == PerLayer && r.comp.nLinkage > 0 ==> r.comp.linkage.numSymbols == seq(m, _ => r.comp.nLinkage))
  {
    hide GroupCarries, GroupFits, Members, QMax, Codable, TablesOf, EncoderBase;
    if m <= 0 || nc < 0 {
      return Err(InvalidDims);
    }
    if |q| != m * nc {
      return Err(QSizeMismatch);
    }
    if |scaleRoot| != m || |scaleLinkage| != m {
      return Err(ScaleSizeMismatch);
    }
    var rootIdx, linkageIdx := SplitRootLinkage(nc, mask);
    var qmax := LargestCode(bitsPerLayer);
    var size := AlphabetSize(cfg, qmax);
    var base := EncoderBase(size, qmax);
    var root, built, w := EncodeGroup(m, nc, q, rootIdx, base, size, cfg.granularity);
    if w != Written {
      return Err(WriteError(w));
    }
    var linkage, built', w' := EncodeGroup(m, nc, q, linkageIdx, base, size, cfg.granularity);
    if w' != Written {
      return Err(WriteError(w'));
    }
    r := Ok(Compressed(clusterId, nc, |rootIdx|, |linkageIdx|, scaleRoot, scaleLinkage, root, linkage));
  }

  // ---- Decoding ----

  lemma {:induction false} RepeatMore(next: nat -> Decoded, skip: nat, n: nat, k: nat)
    requires n <= k && Repeat(next, skip, k).Symbols?
    ensures Repeat(next, skip, n).Symbols? && |Repeat(next, skip, n).syms| == n
    ensures |Repeat(next, skip, k).syms| == k && Repeat(next, skip, k).syms[..n] == Repeat(next, skip, n).syms
    decreases k - n
  {
    RepeatSize(next, skip, k);
    RepeatSize(next, skip, n);
    if n < k {
      RepeatSize(next, skip, k - 1);
      RepeatMore(next, skip, n, k - 1);
    }
  }

  function Consumed(d: Decoded, skip: nat): nat {
    if d.Hit? then d.used else skip
  }

  // The n-th step of a run that does not end early.
  lemma RunStep(next: nat -> Decoded, skip: nat, n: nat, total: nat)
    requires n < total && Repeat(next, skip, total).Symbols?
    ensures Repeat(next, skip, n).Symbols? && Repeat(next, skip, n + 1).Symbols?
    ensures var pos := Repeat(next, skip, n).pos;
      && !next(pos).Starved? && Repeat(next, skip, n + 1).pos == pos + Consumed(next(pos), skip)
      && |Repeat(next, skip, total).syms| == total && Repeat(next, skip, total).syms[n] == Value(next(pos))
  {
    RepeatMore(next, skip, n, total);
    RepeatMore(next, skip, n + 1, total);
    assert Repeat(next, skip, total).syms[n] == Repeat(next, skip, total).syms[..n + 1][n];
  }

  // The reader after n symbols of a run that does not end early.
  ghost predicate ReaderAt(bits: seq<bool>, pos: nat, len: seq<nat>, n: nat, total: nat) {
    var next := Reader(len, bits);
    Repeat(next, MaxLen(len), total).Symbols? ==>
      Repeat(next, MaxLen(len), n).Symbols? && Repeat(next, MaxLen(len), n).pos == pos
  }

  lemma ReaderAdvances(bits: seq<bool>, pos: nat, pos': nat, len: seq<nat>, n: nat, total: nat, sym: nat)
    requires n < total && ReaderAt(bits, pos, len, n, total)
    requires var d := Next(len, bits, pos);
      d.Starved? || (sym == Value(d) && pos' == pos + Consumed(d, MaxLen(len)))
    ensures ReaderAt(bits, pos', len, n + 1, total)
    ensures var d := DecodeMany(len, bits, total); d.Symbols? ==> |d.syms| == total && sym == d.syms[n]
  {
    hide Repeat, Decode, MaxLen;
    if Repeat(Reader(len, bits), MaxLen(len), total).Symbols? {
      RunStep(Reader(len, bits), MaxLen(len), n, total);
    }
  }

  // One symbol of the run.
  method DecodeNext(br: BitReader, model: HuffmanCanonicalModel, ghost n: nat, ghost total: nat) returns (sym: nat)
    requires model.Ready() && br.Valid() && n < total && ReaderAt(br.bits, br.pos, model.len, n, total)
    modifies br
    ensures br.Valid() && ReaderAt(br.bits, br.pos, model.len, n + 1, total)
    ensures var d := DecodeMany(model.len, br.bits, total); d.Symbols? ==> |d.syms| == total && sym == d.syms[n]
  {
    hide ReaderAt, DecodeMany, Next;
    ghost var pos := br.pos;
    sym := model.DecodeSymbol(br);
    ReaderAdvances(br.bits, pos, br.pos, model.len, n, total, sym);
  }

  // Decodes one layer's symbols, the n-th and following of the run, into their cells.
  method DecodeRow(nc: nat, qOut: array<int>, idx: seq<nat>, l: nat, base: nat, model: HuffmanCanonicalModel,
                   br: BitReader, ghost n: nat, ghost total: nat, ghost out: seq<int>, ghost before: seq<nat>)
    requires model.Ready() && br.Valid() && |out| == qOut.Length
    requires Within(Row(nc, idx, l), qOut.Length) && Within(before, qOut.Length)
    requires n == |before| && n + |idx| <= total && ReaderAt(br.bits, br.pos, model.len, n, total)
    requires var d := DecodeMany(model.len, br.bits, total);
      d.Symbols? ==> |d.syms| == total && qOut[..] == Scatter(out, before, d.syms[..n], base)
    modifies qOut, br
    ensures br.Valid() && ReaderAt(br.bits, br.pos, model.len, n + |idx|, total)
    ensures var d, cells := DecodeMany(model.len, br.bits, total), before + Row(nc, idx, l);
      d.Symbols? ==> |d.syms| == total && qOut[..] == Scatter(out, cells, d.syms[..n + |idx|], base)
  {
    hide ReaderAt, DecodeMany, Scatter, TablesOf;
    ghost var d, row := DecodeMany(model.len, br.bits, total), Row(nc, idx, l);
    assert before + row[..0] == before;
    for k := 0 to |idx|
      invariant model.Ready() && br.Valid() && ReaderAt(br.bits, br.pos, model.len, n + k, total)
      invariant d.Symbols? ==> qOut[..] == Scatter(out, before + row[..k], d.syms[..n + k], base)
    {
      assert row[k] == Cell(nc, l, idx[k]);
      var sym := DecodeNext(br, model, n + k, total);
      qOut[l * nc + idx[k]] := QFromSym(sym, base);
      if d.Symbols? {
        ScatterStep(out, before + row[..k], d.syms[..n + k], row[k], sym, base);
        assert before + row[..k + 1] == before + row[..k] + [row[k]];
        assert d.syms[..n + k + 1] == d.syms[..n + k] + [sym];
      }
    }
    assert row[..|idx|] == row;
  }

  lemma ScatterStep(out: seq<int>, cells: seq<nat>, syms: seq<nat>, c: nat, s: nat, base: nat)
    requires |cells| == |syms| && Within(cells, |out|) && c < |out|
    ensures Within(cells + [c], |out|)
    ensures Scatter(out, cells + [c], syms + [s], base) == Scatter(out, cells, syms, base)[c := QFromSym(s, base)]
  {
    assert (cells + [c])[..|cells|] == cells && (syms + [s])[..|syms|] == syms;
  }

  lemma RunStart(bits: seq<bool>, len: seq<nat>, total: nat, out: seq<int>, base: nat)
    ensures ReaderAt(bits, 0, len, 0, total) && Scatter(out, [], [], base) == out
    ensures DecodeMany(len, bits, total).Symbols? ==> |DecodeMany(len, bits, total).syms| == total
  {
    RepeatSize(Reader(len, bits), MaxLen(len), total);
  }

  lemma CellsStep(nc: nat, idx: seq<nat>, l: nat, m: nat)
    requires l < m
    ensures Cells(nc, idx, 0) == [] && Cells(nc, idx, l + 1) == Cells(nc, idx, l) + Row(nc, idx, l)
    ensures |Cells(nc, idx, l + 1)| == |Cells(nc, idx, l)| + |idx| <= |Cells(nc, idx, m)|
  {
    CellsMonotone(nc, idx, l + 1, m);
  }

  lemma {:induction false} CellsMonotone(nc: nat, idx: seq<nat>, l: nat, m: nat)
    requires l <= m
    ensures |Cells(nc, idx, l)| <= |Cells(nc, idx, m)|
    decreases m - l
  {
    if l < m {
      CellsMonotone(nc, idx, l, m - 1);
    }
  }

  method DecodeOneLayer(nc: nat, qOut: array<int>, idx: seq<nat>, l: nat, base: nat, model: HuffmanCanonicalModel,
                        payload: seq<nat>)
    requires model.Ready() && base == DecoderBase(|model.len|) && Within(Row(nc, idx, l), qOut.Length)
    modifies qOut
    ensures var d := DecodedAt(old(qOut[..]), model.len, BitsOf(payload), Row(nc, idx, l));
      d.Matrix? ==> qOut[..] == d.q
  {
    hide BitsOf, Scatter, TablesOf, Row, MaxLen, Reader, ReaderAt, DecodeMany;
    var br := new BitReader(payload);
    ghost var d := DecodeMany(model.len, BitsOf(payload), |idx|);
    RunStart(BitsOf(payload), model.len, |idx|, qOut[..], base);
    assert d.Symbols? ==> d.syms[..0] == [] && d.syms[..0 + |idx|] == d.syms;
    DecodeRow(nc, qOut, idx, l, base, model, br, 0, |idx|, qOut[..], []);
    assert [] + Row(nc, idx, l) == Row(nc, idx, l);
  }

  method DecodeAllLayers(m: nat, nc: nat, qOut: array<int>, idx: seq<nat>, base: nat, model: HuffmanCanonicalModel,
                         payload: seq<nat>)
    requires model.Ready() && base == DecoderBase(|model.len|) && qOut.Length == m * nc && Indices(idx, nc)
    modifies qOut
    ensures Within(Cells(nc, idx, m), qOut.Length)
    ensures var d := DecodedAt(old(qOut[..]), model.len, BitsOf(payload), Cells(nc, idx, m));
      d.Matrix? ==> qOut[..] == d.q
  {
    hide BitsOf, Scatter, TablesOf, Row, Cells, MaxLen, Reader, ReaderAt, DecodeMany;
    var br := new BitReader(payload);
    ghost var total, out := |Cells(nc, idx, m)|, qOut[..];
    ghost var d := DecodeMany(model.len, BitsOf(payload), total);
    RunStart(BitsOf(payload), model.len, total, out, base);
    RowsWithin(m, nc, idx);
    CellsWithin(m, nc, idx, m);
    CellsStart(nc, idx);
    assert d.Symbols? ==> d.syms[..0] == [];
    for l := 0 to m
      invariant model.Ready() && br.Valid() && Within(Cells(nc, idx, l), |out|) && |Cells(nc, idx, l)| <= total
      invariant ReaderAt(br.bits, br.pos, model.len, |Cells(nc, idx, l)|, total)
      invariant d.Symbols? ==> qOut[..] == Scatter(out, Cells(nc, idx, l), d.syms[..|Cells(nc, idx, l)|], base)
    {
      CellsWithin(m, nc, idx, l);
      CellsWithin(m, nc, idx, l + 1);
      CellsStep(nc, idx, l, m);
      DecodeRow(nc, qOut, idx, l, base, model, br, |Cells(nc, idx, l)|, total, out, Cells(nc, idx, l));
    }
    assert d.Symbols? ==> d.syms[..total] == d.syms;
  }

  lemma CellsStart(nc: nat, idx: seq<nat>)
    ensures Cells(nc, idx, 0) == []
  {
  }

  lemma LayersStep(out: seq<int>, lens: seq<seq<nat>>, payloads: seq<seq<bool>>, nc: nat, idx: seq<nat>, l: nat)
    requires l < |lens| && l < |payloads| && forall j | 0 <= j <= l :: Within(Row(nc, idx, j), |out|)
    ensures LayersDecoded(out, lens, payloads, nc, idx, 0) == Matrix(out)
    ensures LayersDecoded(out, lens, payloads, nc, idx, l + 1)
         == match LayersDecoded(out, lens, payloads, nc, idx, l)
            case Truncated => Truncated
            case Matrix(q) => DecodedAt(q, lens[l], payloads[l], Row(nc, idx, l))
  {
  }

  lemma LayersStart(out: seq<int>, lens: seq<seq<nat>>, payloads: seq<seq<bool>>, nc: nat, idx: seq<nat>)
    ensures LayersDecoded(out, lens, payloads, nc, idx, 0) == Matrix(out)
  {
  }

  // decode_group.
  method DecodeGroup(g: Group, m: nat, nc: nat, qOut: array<int>, idx: seq<nat>)
    requires AllReady(g.models) && qOut.Length == m * nc && Indices(idx, nc)
    requires |g.payloads| > 1 ==> |g.models| >= m && |g.payloads| >= m
    modifies qOut
    ensures var d := GroupDecoded(old(qOut[..]), old(Lens(g.models)), Streams(g.payloads), m, nc, idx);
      d.Matrix? ==> qOut[..] == d.q
  {
    hide BitsOf, DecodedAt, LayersDecoded, Row, Cells, TablesOf;
    ghost var lens, out := Lens(g.models), qOut[..];
    CellsWithin(m, nc, idx, m);
    RowsWithin(m, nc, idx);
    if idx == [] || g.payloads == [] || g.models == [] {
      return;
    }
    if |g.payloads| == 1 {
      var model := g.models[0];
      DecodeAllLayers(m, nc, qOut, idx, if model.S == 256 then 128 else model.S / 2, model, g.payloads[0]);
      return;
    }
    LayersStart(out, lens, Streams(g.payloads), nc, idx);
    for l := 0 to m
      invariant AllReady(g.models) && Lens(g.models) == lens
      invariant var d := LayersDecoded(out, lens, Streams(g.payloads), nc, idx, l); d.Matrix? ==> qOut[..] == d.q
    {
      var model := g.models[l];
      LayersStep(out, lens, Streams(g.payloads), nc, idx, l);
      DecodeOneLayer(nc, qOut, idx, l, if model.S == 256 then 128 else model.S / 2, model, g.payloads[l]);
    }
  }

  // The root group's matrix, then the linkage group's on top, is the cluster's.
  lemma BothDecoded(rootLens: seq<seq<nat>>, root: seq<seq<bool>>, linkageLens: seq<seq<nat>>,
                    linkage: seq<seq<bool>>, m: nat, nc: nat, mask: seq<nat>, first: seq<int>, second: seq<int>)
    requires |root| > 1 ==> |rootLens| >= m && |root| >= m
    requires |linkage| > 1 ==> |linkageLens| >= m && |linkage| >= m
    requires |first| == m * nc
    requires var d := GroupDecoded(Cleared(m * nc), rootLens, root, m, nc, Members(nc, mask, false));
      d.Matrix? ==> first == d.q
    requires var d := GroupDecoded(first, linkageLens, linkage, m, nc, Members(nc, mask, true));
      d.Matrix? ==> second == d.q
    ensures var d := ClusterDecoded(rootLens, root, linkageLens, linkage, m, nc, mask); d.Matrix? ==> second == d.q
  {
    hide GroupDecoded, Members;
  }

  method FillZeros(qOut: array<int>)
    modifies qOut
    ensures qOut[..] == Cleared(qOut.Length)
  {
    for i := 0 to qOut.Length
      invariant forall j | 0 <= j < i :: qOut[j] == 0
    {
      qOut[i] := 0;
    }
  }

  // Both groups, over a cleared matrix.
  method DecodeGroups(comp: Compressed, m: nat, nc: nat, mask: seq<nat>, qOut: array<int>)
    requires mask != [] ==> |mask| >= nc
    requires AllReady(comp.root.models) && AllReady(comp.linkage.models)
    requires |comp.root.payloads| > 1 ==> |comp.root.models| >= m && |comp.root.payloads| >= m
    requires |comp.linkage.payloads| > 1 ==> |comp.linkage.models| >= m && |comp.linkage.payloads| >= m
    requires qOut.Length == m * nc && qOut[..] == Cleared(qOut.Length)
    modifies qOut
    ensures
      var d := ClusterDecoded(old(Lens(comp.root.models)), Streams(comp.root.payloads),
                              old(Lens(comp.linkage.models)), Streams(comp.linkage.payloads), m, nc, mask);
      d.Matrix? ==> qOut[..] == d.q
  {
    hide GroupDecoded, ClusterDecoded, Members, TablesOf, Streams, Cleared;
    ghost var rootLens, linkageLens := Lens(comp.root.models), Lens(comp.linkage.models);
    var rootIdx, linkageIdx := SplitRootLinkage(nc, mask);
    DecodeGroup(comp.root, m, nc, qOut, rootIdx);
    ghost var first := qOut[..];
    assert Lens(comp.linkage.models) == linkageLens;
    DecodeGroup(comp.linkage, m, nc, qOut, linkageIdx);
    BothDecoded(rootLens, Streams(comp.root.payloads), linkageLens, Streams(comp.linkage.payloads), m, nc, mask,
                first, qOut[..]);
  }

  method DecodeClusterCoeffs(comp: Compressed, m: nat, nc: nat, mask: seq<nat>, qOut: array<int>) returns (ok: bool)
    requires mask != [] ==> |mask| >= nc
    requires AllReady(comp.root.models) && AllReady(comp.linkage.models)
    requires |comp.root.payloads| > 1 ==> |comp.root.models| >= m && |comp.root.payloads| >= m
    requires |comp.linkage.payloads| > 1 ==> |comp.linkage.models| >= m && |comp.linkage.payloads| >= m
    modifies qOut
    ensures ok <==> qOut.Length == m * nc
    ensures !ok ==> qOut[..] == old(qOut[..])
    ensures ok ==>
      var d := ClusterDecoded(old(Lens(comp.root.models)), Streams(comp.root.payloads),
                              old(Lens(comp.linkage.models)), Streams(comp.linkage.payloads), m, nc, mask);
      d.Matrix? ==> qOut[..] == d.q
  {
    if qOut.Length != m * nc {
      return false;
    }
    hide *;
    FillZeros(qOut);
    DecodeGroups(comp, m, nc, mask, qOut);
    ok := true;
  }

  // ---- End to end ----

  // A matrix of int8 values goes through the coder and the decoder unchanged, for every mask and
  // granularity, when the bases agree modulo 256 (as for every alphabet the encoder derives) and the
  // streams are readable. CodecThreshold proves both conditions exact.
  method CompressThenDecode(m: nat, nc: nat, q: seq<int>, mask: seq<nat>, scaleRoot: seq<real>, scaleLinkage: seq<real>,
                            bitsPerLayer: seq<int>, cfg: HuffmanConfig, qOut: array<int>) returns (r: Result, ok: bool)
    requires m >= 1 && |q| == m * nc < TWO_32 && qOut.Length == m * nc && |scaleRoot| == |scaleLinkage| == m
    requires (mask != [] ==> |mask| >= nc) && Configured(bitsPerLayer, cfg)
    requires var size, base := SizeOf(bitsPerLayer, cfg), BaseOf(bitsPerLayer, cfg);
      && Int8s(q) && Codable(q, base, size) && (base - DecoderBase(size)) % 256 == 0
      && Readable(m, nc, mask, base, size, cfg.granularity)
    modifies qOut
    ensures r.Ok? && ok && qOut[..] == q
  {
    hide GroupCarries, GroupDecoded, ClusterDecoded, ClusterFits, Codable, Configured, Members, MaxLen, TablesOf,
      SizeOf, BaseOf, LetterCount;
    ghost var size, base := SizeOf(bitsPerLayer, cfg), BaseOf(bitsPerLayer, cfg);
    ReadableIsSendable(m, nc, mask, base, size, cfg.granularity);
    ClusterIsWritable(q, m, nc, mask, base, size, cfg.granularity);
    r := CompressClusterCoeffsFromQ(0, m, nc, q, mask, scaleRoot, scaleLinkage, bitsPerLayer, cfg);
    CarriedSizes(Lens(r.comp.root.models), Streams(r.comp.root.payloads), q, m, nc, Members(nc, mask, false), base,
                 size, cfg.granularity);
    CarriedSizes(Lens(r.comp.linkage.models), Streams(r.comp.linkage.payloads), q, m, nc, Members(nc, mask, true),
                 base, size, cfg.granularity);
    CodecRoundTrip(q, Lens(r.comp.root.models), Streams(r.comp.root.payloads),
                   Lens(r.comp.linkage.models), Streams(r.comp.linkage.payloads), m, nc, mask, base, size,
                   cfg.granularity);
    ok := DecodeClusterCoeffs(r.comp, m, nc, mask, qOut);
  }
}
